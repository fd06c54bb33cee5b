/** A collection (crates/veclite/src/collection.rs): ingest validation and the
    mutable slot store, each operation tied to its value-level counterpart in
    `Slots`. */
module Collections {
  import opened Core
  import opened Linear
  import opened PayloadIndex
  import opened Slots
  import opened Words

  datatype Config = Config(
    dimension: nat,
    metric: Metric,
    m: nat,
    efConstruction: nat,
    efSearch: nat,
    provider: Option<string>)

  const MAX_ID_BYTES := 512

  // ----- ingest rules -------------------------------------------------------

  predicate ValidSparse(s: SparseVector) {
    && |s.indices| == |s.values|
    && forall i :: 0 <= i < |s.indices| - 1 ==> s.indices[i] < s.indices[i + 1]
  }

  predicate HasReservedKey(payload: Option<Value>) {
    payload.Some? && payload.value.Object? && exists k :: k in payload.value.fields && |k| > 0 && k[0] == '_'
  }

  /** Validate one point and normalize it for cosine; nothing is stored. */
  function Prepare(config: Config, sqrt: real -> real, p: Point, allowReserved: bool): Result<Point, Error> {
    if p.id == "" || ByteLength(p.id) > MAX_ID_BYTES then Failure(InvalidArgument)
    else if |p.vector| != config.dimension then Failure(DimensionMismatch(config.dimension, |p.vector|))
    else if !allowReserved && HasReservedKey(p.payload) then Failure(InvalidArgument)
    else if p.sparse.Some? && !ValidSparse(p.sparse.value) then Failure(InvalidArgument)
    else if p.sparse.Some? && !allowReserved && config.provider.Some? then Failure(InvalidArgument)
    else if config.metric != Cosine then Success(p)
    else if Norm(sqrt, p.vector) == 0.0 then Failure(InvalidArgument)
    else Success(p.(vector := Divide(p.vector, Norm(sqrt, p.vector))))
  }

  /** Every point is validated before any is applied; the first error wins. */
  function PrepareAll(
    config: Config, sqrt: real -> real, batch: seq<Point>, allowReserved: bool): (r: Result<seq<Point>, Error>)
    ensures r.Success? ==>
      && |r.value| == |batch|
      && forall i :: 0 <= i < |batch| ==> Prepare(config, sqrt, batch[i], allowReserved) == Success(r.value[i])
    ensures r.Failure? ==> exists i ::
      0 <= i < |batch| && Prepare(config, sqrt, batch[i], allowReserved) == Failure(r.error)
  {
    if batch == [] then Success([])
    else
      var front := PrepareAll(config, sqrt, batch[..|batch| - 1], allowReserved);
      if front.Failure? then front
      else
        var last := Prepare(config, sqrt, batch[|batch| - 1], allowReserved);
        if last.Failure? then Failure(last.error) else Success(front.value + [last.value])
  }

  /** A point that validation leaves as it is: what a collection stores. */
  ghost predicate Stored(config: Config, sqrt: real -> real, p: Point) {
    Prepare(config, sqrt, p, true) == Success(p)
  }

  ghost predicate AllStored(config: Config, sqrt: real -> real, l: seq<Point>) {
    forall p :: p in l ==> Stored(config, sqrt, p)
  }

  /** Validation is idempotent, and replay's laxer rules accept what the live
      rules accepted, with the same result. */
  lemma PrepareIdempotent(config: Config, sqrt: real -> real, p: Point, allowReserved: bool)
    requires SqrtLaw(sqrt)
    requires Prepare(config, sqrt, p, allowReserved).Success?
    ensures var q := Prepare(config, sqrt, p, allowReserved).value;
      && Prepare(config, sqrt, p, true) == Success(q)
      && Stored(config, sqrt, q)
      && q.id == p.id && q.payload == p.payload && q.sparse == p.sparse && |q.vector| == config.dimension
  {
    if config.metric == Cosine {
      var q := Prepare(config, sqrt, p, allowReserved).value;
      NormalizedIsUnit(sqrt, p.vector);
      SqrtOfOne(sqrt);
      assert Divide(q.vector, 1.0) == q.vector;
    }
  }

  lemma PrepareAllIdempotent(config: Config, sqrt: real -> real, batch: seq<Point>, allowReserved: bool)
    requires SqrtLaw(sqrt)
    requires PrepareAll(config, sqrt, batch, allowReserved).Success?
    ensures PrepareAll(config, sqrt, batch, true) == PrepareAll(config, sqrt, batch, allowReserved)
    ensures AllStored(config, sqrt, PrepareAll(config, sqrt, batch, allowReserved).value)
  {
    var q := PrepareAll(config, sqrt, batch, allowReserved).value;
    forall i | 0 <= i < |batch|
      ensures Prepare(config, sqrt, batch[i], true) == Success(q[i]) && Stored(config, sqrt, q[i])
    {
      PrepareIdempotent(config, sqrt, batch[i], allowReserved);
    }
    var r := PrepareAll(config, sqrt, batch, true);
    assert r.Success? && r.value == q;
  }

  lemma {:induction false} AdjacentMeansAll(s: seq<nat>, i: nat, j: nat)
    requires forall k :: 0 <= k < |s| - 1 ==> s[k] < s[k + 1]
    requires i < j < |s|
    ensures s[i] < s[j]
    decreases j - i
  {
    if i + 1 < j {
      AdjacentMeansAll(s, i, j - 1);
    }
  }

  // ----- what ingest accepts and what it stores -----------------------------

  /** The rules for a point. `allowReserved`: the internal text path, and replay. */
  ghost predicate Acceptable(config: Config, p: Point, allowReserved: bool) {
    && p.id != "" && ByteLength(p.id) <= 512
    && |p.vector| == config.dimension
    && (config.metric == Cosine ==> exists i :: 0 <= i < |p.vector| && p.vector[i] != 0.0)
    && (!allowReserved && p.payload.Some? && p.payload.value.Object? ==>
          forall key :: key in p.payload.value.fields && key != "" ==> key[0] != '_')
    && (p.sparse.Some? ==> SortedLane(p.sparse.value) && (allowReserved || config.provider.None?))
  }

  ghost predicate SortedLane(s: SparseVector) {
    |s.indices| == |s.values| && forall i, j :: 0 <= i < j < |s.indices| ==> s.indices[i] < s.indices[j]
  }

  ghost predicate Multiple(v: seq<real>, c: real, u: seq<real>) {
    |v| == |u| && forall i :: 0 <= i < |v| ==> v[i] == c * u[i]
  }

  /** What is stored for a point: the point as given, and under cosine the vector of
      unit length in the same direction. */
  ghost predicate StoredAs(config: Config, p: Point, q: Point) {
    && q.id == p.id && q.payload == p.payload && q.sparse == p.sparse
    && (config.metric != Cosine ==> q.vector == p.vector)
    && (config.metric == Cosine ==>
          Dot(q.vector, q.vector) == 1.0 && exists c: real :: c > 0.0 && Multiple(p.vector, c, q.vector))
  }

  ghost predicate AllStoredAs(config: Config, batch: seq<Point>, stored: seq<Point>) {
    |stored| == |batch| && forall i :: 0 <= i < |batch| ==> StoredAs(config, batch[i], stored[i])
  }

  /** The answer to a bad point: a wrong dimension is told, if the id is fine. */
  function Complaint(config: Config, p: Point): Error {
    if 0 < |p.id| && ByteLength(p.id) <= 512 && |p.vector| != config.dimension
    then DimensionMismatch(config.dimension, |p.vector|) else InvalidArgument
  }

  ghost predicate AllAcceptable(config: Config, batch: seq<Point>, allowReserved: bool) {
    forall i :: 0 <= i < |batch| ==> Acceptable(config, batch[i], allowReserved)
  }

  /** The complaint about the first point that breaks a rule. */
  ghost predicate Refused(config: Config, batch: seq<Point>, allowReserved: bool, error: Error) {
    exists i: nat ::
      && i < |batch| && AllAcceptable(config, batch[..i], allowReserved)
      && !Acceptable(config, batch[i], allowReserved) && error == Complaint(config, batch[i])
  }

  lemma SortedLaneIff(s: SparseVector)
    ensures ValidSparse(s) <==> SortedLane(s)
  {
    if ValidSparse(s) {
      forall i, j | 0 <= i < j < |s.indices| ensures s.indices[i] < s.indices[j] {
        AdjacentMeansAll(s.indices, i, j);
      }
    }
  }

  /** Dividing by the norm keeps the direction. */
  lemma DivideIsMultiple(sqrt: real -> real, v: seq<real>)
    requires SqrtLaw(sqrt) && Norm(sqrt, v) != 0.0
    ensures Norm(sqrt, v) > 0.0 && Multiple(v, Norm(sqrt, v), Divide(v, Norm(sqrt, v)))
  {
    NormZero(sqrt, v);
    var n := Norm(sqrt, v);
    forall i | 0 <= i < |v| ensures v[i] == n * Divide(v, n)[i] {
      QuotientTimes(v[i], n);
    }
  }

  /** Exactly the points that keep the rules are accepted, and they are stored as given. */
  lemma PrepareMeans(config: Config, sqrt: real -> real, p: Point, allowReserved: bool)
    requires SqrtLaw(sqrt)
    ensures var r := Prepare(config, sqrt, p, allowReserved);
      && (r.Success? <==> Acceptable(config, p, allowReserved))
      && (r.Success? ==> StoredAs(config, p, r.value))
      && (r.Failure? ==> r.error == Complaint(config, p))
  {
    NormZero(sqrt, p.vector);
    if p.sparse.Some? {
      SortedLaneIff(p.sparse.value);
    }
    if config.metric == Cosine && Norm(sqrt, p.vector) != 0.0 {
      NormalizedIsUnit(sqrt, p.vector);
      DivideIsMultiple(sqrt, p.vector);
    }
  }

  lemma RefusedSnoc(config: Config, front: seq<Point>, last: Point, allowReserved: bool, error: Error)
    ensures AllAcceptable(config, front + [last], allowReserved) <==>
      AllAcceptable(config, front, allowReserved) && Acceptable(config, last, allowReserved)
    ensures Refused(config, front, allowReserved, error) ==> Refused(config, front + [last], allowReserved, error)
    ensures AllAcceptable(config, front, allowReserved) && !Acceptable(config, last, allowReserved) ==>
      Refused(config, front + [last], allowReserved, Complaint(config, last))
  {
    hide Acceptable, Complaint;
    var batch := front + [last];
    assert batch[|front|] == last && batch[..|front|] == front;
    if Refused(config, front, allowReserved, error) {
      var i: nat :|
        && i < |front| && AllAcceptable(config, front[..i], allowReserved)
        && !Acceptable(config, front[i], allowReserved) && error == Complaint(config, front[i]);
      assert batch[..i] == front[..i] && batch[i] == front[i];
    }
  }

  lemma StoredSnoc(config: Config, front: seq<Point>, stored: seq<Point>, last: Point, q: Point)
    requires AllStoredAs(config, front, stored) && StoredAs(config, last, q)
    ensures AllStoredAs(config, front + [last], stored + [q])
  {
    hide StoredAs;
  }

  /** A batch is accepted exactly when every point keeps the rules; else the first that
      does not is complained about. */
  lemma {:induction false} PrepareAllMeans(config: Config, sqrt: real -> real, batch: seq<Point>, allowReserved: bool)
    requires SqrtLaw(sqrt)
    ensures var r := PrepareAll(config, sqrt, batch, allowReserved);
      && (r.Success? <==> AllAcceptable(config, batch, allowReserved))
      && (r.Success? ==> AllStoredAs(config, batch, r.value))
      && (r.Failure? ==> Refused(config, batch, allowReserved, r.error))
  {
    if batch != [] {
      var front, last := batch[..|batch| - 1], batch[|batch| - 1];
      assert batch == front + [last];
      PrepareAllSnoc(config, sqrt, front, last, allowReserved);
      hide *;
      PrepareAllMeans(config, sqrt, front, allowReserved);
      PrepareMeans(config, sqrt, last, allowReserved);
      var before, r := PrepareAll(config, sqrt, front, allowReserved), PrepareAll(config, sqrt, batch, allowReserved);
      RefusedSnoc(config, front, last, allowReserved, if before.Failure? then before.error else InvalidArgument);
      if r.Success? {
        StoredSnoc(config, front, before.value, last, Prepare(config, sqrt, last, allowReserved).value);
      }
    }
  }

  lemma PrepareAllSnoc(config: Config, sqrt: real -> real, front: seq<Point>, last: Point, allowReserved: bool)
    ensures var before, q := PrepareAll(config, sqrt, front, allowReserved), Prepare(config, sqrt, last, allowReserved);
      PrepareAll(config, sqrt, front + [last], allowReserved) ==
      if before.Failure? then before else if q.Failure? then Failure(q.error) else Success(before.value + [q.value])
  {
    assert (front + [last])[..|front|] == front;
    hide Prepare;
  }

  /** After a batch every id of it has what is stored for its last version, and every
      other id has what it had. */
  ghost predicate Keeps(config: Config, before: seq<Point>, batch: seq<Point>, after: seq<Point>) {
    forall id :: KeepsAt(config, AsMap(before), LastWith(batch, id), AsMap(after), id)
  }

  ghost predicate KeepsAt(
    config: Config, was: map<string, Point>, given: Option<Point>, now: map<string, Point>, id: string)
  {
    if given.Some? then id in now && StoredAs(config, given.value, now[id])
    else (id in now <==> id in was) && (id in now ==> now[id] == was[id])
  }

  lemma {:induction false} LastStored(config: Config, batch: seq<Point>, stored: seq<Point>, id: string)
    requires AllStoredAs(config, batch, stored)
    ensures var p, q := LastWith(batch, id), LastWith(stored, id);
      (p.Some? <==> q.Some?) && (p.Some? ==> StoredAs(config, p.value, q.value))
  {
    if batch != [] {
      var n := |batch| - 1;
      assert StoredAs(config, batch[n], stored[n]) && batch[n].id == stored[n].id;
      hide StoredAs;
      LastStored(config, batch[..n], stored[..n], id);
      assert batch == batch[..n] + [batch[n]] && stored == stored[..n] + [stored[n]];
      LastWithSnoc(batch[..n], batch[n], id);
      LastWithSnoc(stored[..n], stored[n], id);
    }
  }

  lemma PutAllKeepsBatch(config: Config, l: seq<Point>, batch: seq<Point>, stored: seq<Point>)
    requires AllStoredAs(config, batch, stored)
    ensures Keeps(config, l, batch, PutAll(l, stored))
  {
    PutAllIsMap(l, stored);
    hide PutAll, AsMap, LastWith, AllStoredAs, StoredAs;
    forall id ensures KeepsAt(config, AsMap(l), LastWith(batch, id), AsMap(PutAll(l, stored)), id) {
      LastStored(config, batch, stored, id);
    }
  }

  // ----- the read-only tier -------------------------------------------------

  /** A collection loaded without materializing its vectors; `None` ids are dead slots. */
  datatype LoadedBase = LoadedBase(
    rows: seq<seq<real>>,
    ids: seq<Option<string>>,
    payloads: seq<Option<Value>>,
    sparses: seq<Option<SparseVector>>,
    committed: Committed,
    indexed: bool)

  ghost predicate ValidBase(l: LoadedBase, dim: nat) {
    && |l.rows| == |l.ids| == |l.payloads| == |l.sparses|
    && (forall i :: 0 <= i < |l.rows| ==> |l.rows[i]| == dim)
    && (forall i, j :: 0 <= i < j < |l.ids| && l.ids[i].Some? ==> l.ids[i] != l.ids[j])
    && (forall i :: 0 <= i < |l.ids| && l.ids[i].None? ==> l.payloads[i].None? && l.sparses[i].None?)
  }

  function IdOrEmpty(id: Option<string>): string {
    if id.None? then "" else id.value
  }

  /** The id table after the first `n` slots of a loaded base were registered. */
  ghost predicate RegisteredAs(ids: seq<string>, idToSlot: map<string, nat>, dead: set<nat>, l: LoadedBase, n: nat) {
    && n <= |l.ids| && |ids| == n
    && (forall s :: 0 <= s < n ==> ids[s] == IdOrEmpty(l.ids[s]))
    && (forall s :: 0 <= s < n && l.ids[s].Some? ==> l.ids[s].value in idToSlot && idToSlot[l.ids[s].value] == s)
    && (forall id :: id in idToSlot ==> idToSlot[id] < n && l.ids[idToSlot[id]] == Some(id))
    && (forall s :: s in dead <==> 0 <= s < n && l.ids[s].None?)
  }

  ghost predicate Registered(d: Data, l: LoadedBase, n: nat) {
    RegisteredAs(d.ids, d.idToSlot, d.tombstones, l, n)
  }

  lemma RegisteredLive(d: Data, l: LoadedBase)
    requires Registered(d, l, |l.ids|)
    ensures forall s: nat :: Live(d, s) <==> s < |l.ids| && l.ids[s].Some?
  {
  }

  // ----- the mutable store --------------------------------------------------

  class CollectionData {
    var vectors: seq<real>
    var ids: seq<string>
    var idToSlot: map<string, nat>
    var tombstones: set<nat>
    var payloads: seq<Option<Value>>
    var sparses: seq<Option<SparseVector>>
    var graph: Option<Graph>
    var payloadIndexes: PayloadIndexes
    var base: Option<Base>
    var committed: Option<Committed>
    var dirty: bool

    ghost function Model(): Data
      reads this, payloadIndexes
    {
      Data(vectors, ids, idToSlot, tombstones, payloads, sparses, graph, payloadIndexes.byKey, base, committed, dirty)
    }

    constructor (metric: Metric, declared: seq<(string, IndexKind)>)
      ensures fresh(payloadIndexes)
      ensures Model() == EmptyData(metric, Fresh(declared))
    {
      vectors, ids, idToSlot, tombstones := [], [], map[], {};
      payloads, sparses := [], [];
      graph := EmptyGraph(metric);
      payloadIndexes := new PayloadIndexes(declared);
      base, committed, dirty := None, None, false;
    }

    /** Read a vector from the overlay or from the base tier. */
    method VectorAt(slot: nat, dim: nat) returns (v: seq<real>)
      requires Shape(Model(), dim) && slot < |ids|
      ensures v == Row(Model(), dim, slot)
    {
      var count := if base.None? then 0 else |base.value.rows|;
      if slot < count {
        return base.value.rows[slot];
      }
      var o := slot - count;
      MulMonotone(o + 1, |ids| - count, dim);
      MulStep(o, dim);
      return vectors[o * dim..(o + 1) * dim];
    }

    method IsLive(slot: nat) returns (b: bool)
      requires slot < |ids|
      ensures b == Live(Model(), slot)
    {
      b := ids[slot] in idToSlot && idToSlot[ids[slot]] == slot;
    }

    method ReadPoint(slot: nat, dim: nat) returns (p: Point)
      requires Shape(Model(), dim) && slot < |ids|
      ensures p == PointAt(Model(), dim, slot)
    {
      var v := VectorAt(slot, dim);
      p := Point(ids[slot], v, sparses[slot], payloads[slot]);
    }

    method Get(id: string, dim: nat) returns (p: Option<Point>)
      requires Valid(Model(), dim)
      ensures var m := AsMap(Points(Model(), dim)); p == if id in m then Some(m[id]) else None
    {
      GetReadsList(Model(), dim, id);
      if id !in idToSlot {
        return None;
      }
      var q := ReadPoint(idToSlot[id], dim);
      return Some(q);
    }

    method Len(ghost dim: nat) returns (n: nat)
      requires Valid(Model(), dim)
      ensures n == |Points(Model(), dim)|
    {
      SlotsPartition(Model(), dim);
      n := |idToSlot|;
    }

    /** Live points in slot order: what a seal writes. */
    method LivePoints(dim: nat) returns (out: seq<Point>)
      requires Valid(Model(), dim)
      ensures out == Points(Model(), dim)
    {
      out := [];
      for slot := 0 to |ids|
        invariant out == PointsBelow(Model(), dim, slot)
      {
        var live := IsLive(slot);
        if live {
          var p := ReadPoint(slot, dim);
          out := out + [p];
        }
      }
    }

    method Retire(id: string) returns (existed: bool)
      requires id in idToSlot ==> idToSlot[id] < |payloads| == |sparses|
      modifies this, payloadIndexes
      ensures payloadIndexes == old(payloadIndexes)
      ensures existed <==> id in old(idToSlot)
      ensures Model() == Retired(old(Model()), id)
    {
      existed := id in idToSlot;
      if existed {
        var slot := idToSlot[id];
        idToSlot := idToSlot - {id};
        tombstones := tombstones + {slot};
        payloadIndexes.Remove(slot, payloads[slot]);
        payloads := payloads[slot := None];
        sparses := sparses[slot := None];
      }
    }

    /** Delete one id; the slot stays behind as a tombstone. */
    method Tombstone(id: string, ghost dim: nat) returns (existed: bool)
      requires Valid(Model(), dim)
      modifies this, payloadIndexes
      ensures payloadIndexes == old(payloadIndexes)
      ensures existed <==> id in old(idToSlot)
      ensures Model() == Deleted(old(Model()), id)
      ensures Valid(Model(), dim) && Points(Model(), dim) == Without(Points(old(Model()), dim), id)
    {
      DeleteRefines(Model(), id, dim);
      existed := Retire(id);
      if existed {
        dirty := true;
      }
    }

    method Append(p: Point, dim: nat)
      requires BaseCount(Model()) <= |ids| && |vectors| == (|ids| - BaseCount(Model())) * dim
      requires |payloads| == |ids| && |p.vector| == dim
      modifies this, payloadIndexes
      ensures payloadIndexes == old(payloadIndexes)
      ensures Model() == Appended(old(Model()), p)
    {
      var slot := |ids|;
      var overlay := slot - if base.None? then 0 else |base.value.rows|;
      MulStep(overlay, dim);
      vectors := vectors + p.vector;
      ids := ids + [p.id];
      payloads := payloads + [p.payload];
      sparses := sparses + [p.sparse];
      idToSlot := idToSlot[p.id := slot];
      payloadIndexes.Insert(slot, p.payload);
      dirty := true;
      if graph.Some? {
        graph := Some(Graph(graph.value.nodes[slot := vectors[overlay * dim..(overlay + 1) * dim]]));
        assert vectors[overlay * dim..(overlay + 1) * dim] == p.vector;
      }
    }

    /** Append-mostly upsert: the old slot is retired, the point takes a new one. */
    method ApplyUpsert(p: Point, dim: nat)
      requires Valid(Model(), dim) && |p.vector| == dim
      modifies this, payloadIndexes
      ensures payloadIndexes == old(payloadIndexes)
      ensures Model() == Upserted(old(Model()), p)
      ensures Valid(Model(), dim) && Points(Model(), dim) == Put(Points(old(Model()), dim), p)
    {
      ghost var before := Model();
      UpsertRefines(before, p, dim);
      RetiredShape(before, p.id, dim);
      ShapeSizes(Retired(before, p.id), dim);
      assert Upserted(before, p) == Appended(Retired(before, p.id), p);
      assert p.id in idToSlot ==> idToSlot[p.id] < |payloads| == |sparses|;
      hide Valid, Points, Put, Upserted, Appended, Retired, Shape, BaseCount;
      var _ := Retire(p.id);
      assert Model() == Retired(before, p.id);
      Append(p, dim);
    }

    method ApplyPrepared(batch: seq<Point>, dim: nat)
      requires Valid(Model(), dim) && forall i :: 0 <= i < |batch| ==> |batch[i].vector| == dim
      modifies this, payloadIndexes
      ensures payloadIndexes == old(payloadIndexes)
      ensures Model() == UpsertedAll(old(Model()), batch, dim)
      ensures Valid(Model(), dim) && Points(Model(), dim) == PutAll(Points(old(Model()), dim), batch)
    {
      ghost var before := Model();
      hide *;
      UpsertAllRefines(before, batch, dim);
      NothingUpserted(before, batch, dim);
      for i := 0 to |batch|
        invariant payloadIndexes == old(payloadIndexes)
        invariant Valid(Model(), dim) && Model() == UpsertedAll(before, batch[..i], dim)
      {
        OneUpserted(before, batch, dim, i);
        ApplyUpsert(batch[i], dim);
      }
      assert batch[..|batch|] == batch;
    }

    /** A batch is applied whole or, on the first invalid point, not at all. */
    method UpsertBatch(
      config: Config, sqrt: real -> real, batch: seq<Point>, allowReserved: bool) returns (r: Result<(), Error>)
      requires Valid(Model(), config.dimension)
      modifies this, payloadIndexes
      ensures payloadIndexes == old(payloadIndexes)
      ensures Valid(Model(), config.dimension)
      ensures r.Success? <==> PrepareAll(config, sqrt, batch, allowReserved).Success?
      ensures r.Failure? ==>
        Model() == old(Model()) && PrepareAll(config, sqrt, batch, allowReserved) == Failure(r.error)
      ensures r.Success? ==>
        Points(Model(), config.dimension) ==
        PutAll(Points(old(Model()), config.dimension), PrepareAll(config, sqrt, batch, allowReserved).value)
      ensures SqrtLaw(sqrt) ==>
        && (r.Success? <==> AllAcceptable(config, batch, allowReserved))
        && (r.Failure? ==> Refused(config, batch, allowReserved, r.error))
        && (r.Success? ==>
              Keeps(config, Points(old(Model()), config.dimension), batch, Points(Model(), config.dimension)))
    {
      if SqrtLaw(sqrt) {
        PrepareAllMeans(config, sqrt, batch, allowReserved);
        if AllAcceptable(config, batch, allowReserved) {
          PutAllKeepsBatch(config, Points(Model(), config.dimension), batch,
                           PrepareAll(config, sqrt, batch, allowReserved).value);
        }
      }
      hide Acceptable, AllAcceptable, Refused, AllStoredAs, SqrtLaw, Keeps;
      var prepared := PrepareAll(config, sqrt, batch, allowReserved);
      if prepared.Failure? {
        return Failure(prepared.error);
      }
      forall i | 0 <= i < |batch| ensures |prepared.value[i].vector| == config.dimension {
        assert Prepare(config, sqrt, batch[i], allowReserved) == Success(prepared.value[i]);
      }
      ApplyPrepared(prepared.value, config.dimension);
      return Success(());
    }

    /** Delete a batch; the count is how many live points it removed. */
    method DeleteBatch(batch: seq<string>, dim: nat) returns (removed: nat)
      requires Valid(Model(), dim)
      modifies this, payloadIndexes
      ensures payloadIndexes == old(payloadIndexes)
      ensures Model() == DeletedAll(old(Model()), batch, dim)
      ensures Valid(Model(), dim) && Points(Model(), dim) == WithoutAll(Points(old(Model()), dim), batch)
      ensures removed == |Points(old(Model()), dim)| - |Points(Model(), dim)|
    {
      ghost var before := Model();
      DeleteAllRefines(before, batch, dim);
      removed := 0;
      for i := 0 to |batch|
        invariant payloadIndexes == old(payloadIndexes)
        invariant Model() == DeletedAll(before, batch[..i], dim)
        invariant removed == |Points(before, dim)| - |Points(Model(), dim)|
      {
        DeleteStep(before, batch, i, dim);
        var existed := Tombstone(batch[i], dim);
        removed := removed + if existed then 1 else 0;
      }
      assert batch[..|batch|] == batch;
    }

    /** A new graph over the live slots. */
    method BuildGraph(dim: nat) returns (g: Graph)
      requires Shape(Model(), dim)
      ensures g == LiveGraph(Model(), dim)
    {
      var live: map<nat, seq<real>> := map[];
      for slot := 0 to |ids|
        invariant forall s :: s in live <==> 0 <= s < slot && Live(Model(), s)
        invariant forall s :: s in live ==> live[s] == Row(Model(), dim, s)
      {
        var alive := IsLive(slot);
        if alive {
          var v := VectorAt(slot, dim);
          live := live[slot := v];
        }
      }
      g := Graph(live);
      assert g.nodes == LiveGraph(Model(), dim).nodes;
    }

    method LoadGraph(dim: nat, indexed: bool)
      requires Shape(Model(), dim)
      modifies `graph
      ensures graph == if indexed then Some(LiveGraph(old(Model()), dim)) else None
    {
      if indexed {
        var rebuilt := BuildGraph(dim);
        graph := Some(rebuilt);
      } else {
        graph := None;
      }
    }

    /** Rebuild the graph over the live slots only. */
    method Reindex(dim: nat, metric: Metric)
      requires Valid(Model(), dim)
      modifies this
      ensures payloadIndexes == old(payloadIndexes)
      ensures Model() == Reindexed(old(Model()), dim, metric)
      ensures Valid(Model(), dim) && Points(Model(), dim) == Points(old(Model()), dim)
      ensures graph.None? <==> metric == DotProduct || (base.Some? && !base.value.indexed)
      ensures graph.Some? ==> forall s :: s in graph.value.nodes <==> 0 <= s < |ids| && s !in tombstones
    {
      ReindexRefines(Model(), dim, metric);
      LiveGraphNodes(Model(), dim);
      LoadGraph(dim, !(metric == DotProduct || (base.Some? && !base.value.indexed)));
    }

    method ClearSlots()
      modifies this
      ensures payloadIndexes == old(payloadIndexes)
      ensures Model() == old(Model()).(vectors := [], ids := [], idToSlot := map[], tombstones := {}, payloads := [],
        sparses := [])
    {
      vectors, ids, idToSlot := [], [], map[];
      tombstones, payloads, sparses := {}, [], [];
    }

    method Clear(metric: Metric)
      modifies this
      ensures fresh(payloadIndexes)
      ensures Model() == Reset(old(Model()), metric)
    {
      ClearSlots();
      base, committed, dirty := None, None, true;
      payloadIndexes := new PayloadIndexes.Rebuilt(payloadIndexes);
      graph := EmptyGraph(metric);
    }

    /** Drop every tombstone: rebuild the store from the live points. */
    method Compact(dim: nat, metric: Metric)
      requires Valid(Model(), dim)
      modifies this
      ensures fresh(payloadIndexes)
      ensures Model() == Compacted(old(Model()), dim, metric)
      ensures Valid(Model(), dim) && Points(Model(), dim) == Points(old(Model()), dim)
      ensures tombstones == {} && dirty && base.None? && committed.None?
      ensures graph.None? <==> metric == DotProduct
    {
      CompactRefines(Model(), dim, metric);
      CompactedIsClean(Model(), dim, metric);
      ResetFacts(Model(), dim, metric);
      PointWidths(Model(), dim);
      var live := LivePoints(dim);
      Clear(metric);
      ApplyPrepared(live, dim);
    }

    /** Insert every live payload into the declared indexes. */
    method Backfill()
      requires |payloads| == |ids|
      requires forall s :: 0 <= s < |ids| && !Live(Model(), s) ==> payloads[s].None?
      modifies payloadIndexes
      ensures payloadIndexes.byKey == Backfilled(old(payloadIndexes.byKey), payloads, |payloads|)
    {
      ghost var start := payloadIndexes.byKey;
      for slot := 0 to |ids|
        invariant payloadIndexes.byKey == Backfilled(start, payloads, slot)
      {
        if ids[slot] in idToSlot && idToSlot[ids[slot]] == slot {
          payloadIndexes.Insert(slot, payloads[slot]);
        } else {
          assert !Live(Model(), slot);
          InsertNothing(Backfilled(start, payloads, slot), slot);
        }
      }
    }

    /** Declare an index late and fill it from the live payloads. */
    method ApplyDeclareIndex(name: string, kind: IndexKind, ghost dim: nat)
      requires Valid(Model(), dim)
      modifies this, payloadIndexes
      ensures payloadIndexes == old(payloadIndexes)
      ensures Model() == IndexDeclared(old(Model()), name, kind)
      ensures Valid(Model(), dim) && Points(Model(), dim) == Points(old(Model()), dim)
    {
      DeclareRefines(Model(), name, kind, dim);
      var added := payloadIndexes.Declare(name, kind);
      if added {
        Backfill();
        dirty := true;
      }
    }

    /** Runtime declaration: redeclaring the same kind is a no-op, another kind an error. */
    method CreatePayloadIndex(name: string, kind: IndexKind, ghost dim: nat) returns (r: Result<(), Error>)
      requires Valid(Model(), dim)
      modifies this, payloadIndexes
      ensures payloadIndexes == old(payloadIndexes)
      ensures r == CreateIndexResult(old(Model()).indexes, name, kind)
      ensures Model() == if r.Success? then IndexDeclared(old(Model()), name, kind) else old(Model())
      ensures Valid(Model(), dim) && Points(Model(), dim) == Points(old(Model()), dim)
    {
      if name == "" || name[0] == '_' || '.' in name {
        return Failure(InvalidArgument);
      }
      var existing := payloadIndexes.KindOf(name);
      if existing.Some? {
        return if existing.value == kind then Success(()) else Failure(InvalidArgument);
      }
      ApplyDeclareIndex(name, kind, dim);
      return Success(());
    }

    /** Register the ids of a loaded base; dead slots become tombstones. */
    method RegisterIds(l: LoadedBase)
      requires forall i, j :: 0 <= i < j < |l.ids| && l.ids[i].Some? ==> l.ids[i] != l.ids[j]
      modifies this
      ensures Registered(Model(), l, |l.ids|)
      ensures payloadIndexes == old(payloadIndexes)
      ensures Model() == old(Model()).(ids := ids, idToSlot := idToSlot, tombstones := tombstones)
    {
      var names: seq<string>, slots: map<string, nat>, dead: set<nat> := [], map[], {};
      for slot := 0 to |l.ids|
        invariant RegisteredAs(names, slots, dead, l, slot)
      {
        if l.ids[slot].Some? {
          slots := slots[l.ids[slot].value := slot];
        } else {
          dead := dead + {slot};
        }
        names := names + [IdOrEmpty(l.ids[slot])];
      }
      ids, idToSlot, tombstones := names, slots, dead;
    }

    method InstallMetadata(l: LoadedBase, declared: seq<(string, IndexKind)>)
      requires forall i, j :: 0 <= i < j < |l.ids| && l.ids[i].Some? ==> l.ids[i] != l.ids[j]
      modifies this
      ensures fresh(payloadIndexes)
      ensures Registered(Model(), l, |l.ids|)
      ensures Model() == Data([], ids, idToSlot, tombstones, l.payloads, l.sparses, graph, Fresh(declared),
                              Some(Base(l.rows, l.committed, l.indexed)), None, false)
    {
      RegisterIds(l);
      vectors, payloads, sparses := [], l.payloads, l.sparses;
      base, committed, dirty := Some(Base(l.rows, l.committed, l.indexed)), None, false;
      payloadIndexes := new PayloadIndexes(declared);
    }

    /** Install a loaded base tier: metadata in memory, vectors left in the file. */
    method InstallBase(l: LoadedBase, dim: nat, metric: Metric, declared: seq<(string, IndexKind)>)
      requires ValidBase(l, dim)
      modifies this
      ensures fresh(payloadIndexes)
      ensures Valid(Model(), dim) && Registered(Model(), l, |l.ids|)
      ensures payloads == l.payloads && sparses == l.sparses
      ensures base == Some(Base(l.rows, l.committed, l.indexed)) && committed.None? && !dirty
      ensures Kinds(payloadIndexes.byKey) == Kinds(Fresh(declared))
      ensures graph.None? <==> metric == DotProduct || !l.indexed
    {
      InstallMetadata(l, declared);
      RegisteredLive(Model(), l);
      Backfill();
      InstalledValid(Model(), l, dim, declared, l.indexed && metric != DotProduct);
      LoadGraph(dim, l.indexed && metric != DotProduct);
    }

    /** References to carry forward at a checkpoint, when nothing changed. */
    method CleanReuse() returns (r: Option<Committed>)
      ensures r == Reusable(Model())
    {
      if dirty {
        return None;
      }
      return if base.Some? then Some(base.value.committed) else committed;
    }

    /** The state matches the file: just loaded, or just sealed. */
    method MarkSealed(c: Committed, ghost dim: nat)
      requires Valid(Model(), dim)
      modifies this
      ensures payloadIndexes == old(payloadIndexes)
      ensures Model() == Sealed(old(Model()), c)
      ensures Valid(Model(), dim) && Points(Model(), dim) == Points(old(Model()), dim)
    {
      SameValid(Model(), Sealed(Model(), c), dim);
      committed := Some(c);
      dirty := false;
    }
  }

  lemma NothingUpserted(d: Data, batch: seq<Point>, dim: nat)
    requires Valid(d, dim)
    ensures UpsertedAll(d, batch[..0], dim) == d
  {
  }

  lemma OneUpserted(d: Data, batch: seq<Point>, dim: nat, i: nat)
    requires Valid(d, dim) && (forall j :: 0 <= j < |batch| ==> |batch[j].vector| == dim) && i < |batch|
    ensures UpsertedAll(d, batch[..i + 1], dim) == Upserted(UpsertedAll(d, batch[..i], dim), batch[i])
  {
    assert batch[..i + 1][..i] == batch[..i];
  }

  lemma ShapeSizes(d: Data, dim: nat)
    requires Shape(d, dim)
    ensures BaseCount(d) <= |d.ids| && |d.vectors| == (|d.ids| - BaseCount(d)) * dim && |d.payloads| == |d.ids|
  {
  }

  lemma RetiredShape(d: Data, id: string, dim: nat)
    requires Valid(d, dim)
    ensures Shape(Retired(d, id), dim)
  {
    RetiredFacts(d, id, dim);
  }

  function Reusable(d: Data): Option<Committed> {
    if d.dirty then None
    else if d.base.Some? then Some(d.base.value.committed) else d.committed
  }

  function Sealed(d: Data, c: Committed): Data {
    d.(committed := Some(c), dirty := false)
  }

  function CreateIndexResult(ixs: Indexes, name: string, kind: IndexKind): Result<(), Error> {
    if name == "" || name[0] == '_' || '.' in name then Failure(InvalidArgument)
    else if name in ixs && ixs[name].kind != kind then Failure(InvalidArgument)
    else Success(())
  }

  lemma DeleteStep(d: Data, batch: seq<string>, i: nat, dim: nat)
    requires Valid(d, dim) && i < |batch|
    ensures var before := DeletedAll(d, batch[..i], dim);
      && DeletedAll(d, batch[..i + 1], dim) == Deleted(before, batch[i])
      && |Points(Deleted(before, batch[i]), dim)| ==
           |Points(before, dim)| - if batch[i] in before.idToSlot then 1 else 0
  {
    assert batch[..i + 1][..i] == batch[..i];
    DeletedCount(DeletedAll(d, batch[..i], dim), batch[i], dim);
  }

  /** A loaded base with its postings filled is valid, with or without its graph. */
  lemma InstalledValid(d: Data, l: LoadedBase, dim: nat, declared: seq<(string, IndexKind)>, indexed: bool)
    requires ValidBase(l, dim) && Registered(d, l, |l.ids|) && d.vectors == []
    requires d.payloads == l.payloads && d.sparses == l.sparses && d.base.Some? && d.base.value.rows == l.rows
    requires d.indexes == Backfilled(Fresh(declared), l.payloads, |l.ids|)
    ensures Shape(d, dim)
    ensures Valid(d.(graph := if indexed then Some(LiveGraph(d, dim)) else None), dim)
    ensures Kinds(d.indexes) == Kinds(Fresh(declared))
  {
    assert 0 * dim == 0;
    var e := d.(graph := if indexed then Some(LiveGraph(d, dim)) else None);
    assert Shape(d, dim);
    hide Shape, Backfilled, Fresh, Kinds, Coherent, LiveGraph, GraphHolds;
    InstalledIndexes(l.payloads, declared);
    InstalledGraph(d, dim, indexed);
    InstalledSlots(e, l, dim);
  }

  lemma InstalledSlots(d: Data, l: LoadedBase, dim: nat)
    requires ValidBase(l, dim) && Registered(d, l, |l.ids|) && d.payloads == l.payloads && d.sparses == l.sparses
    ensures forall id :: id in d.idToSlot ==> d.idToSlot[id] < |d.ids| && d.ids[d.idToSlot[id]] == id
    ensures forall s :: s in d.tombstones <==> 0 <= s < |d.ids| && !Live(d, s)
    ensures forall s :: 0 <= s < |d.ids| && !Live(d, s) ==> d.payloads[s].None? && d.sparses[s].None?
  {
    RegisteredLive(d, l);
    hide Live;
  }

  lemma InstalledIndexes(payloads: seq<Option<Value>>, declared: seq<(string, IndexKind)>)
    ensures var ixs := Backfilled(Fresh(declared), payloads, |payloads|);
      Coherent(ixs, payloads) && Kinds(ixs) == Kinds(Fresh(declared))
  {
    FreshIsEmpty(declared);
    BackfillFromEmpty(Fresh(declared), payloads);
  }

  lemma InstalledGraph(d: Data, dim: nat, indexed: bool)
    requires Shape(d, dim)
    ensures var e := d.(graph := if indexed then Some(LiveGraph(d, dim)) else None);
      Shape(e, dim) && GraphHolds(e, dim)
  {
    var e := d.(graph := if indexed then Some(LiveGraph(d, dim)) else None);
    assert Shape(e, dim);
    assert forall s: nat :: s < |d.ids| ==> Row(e, dim, s) == Row(d, dim, s);
  }

  lemma InsertNothing(ixs: Indexes, slot: nat)
    ensures Inserted(ixs, slot, None) == ixs
  {
  }

  lemma {:induction false} FreshIsEmpty(declared: seq<(string, IndexKind)>)
    ensures forall name :: name in Fresh(declared) ==> Fresh(declared)[name].postings == map[]
  {
    if declared != [] {
      FreshIsEmpty(declared[..|declared| - 1]);
    }
  }

  lemma BackfillFromEmpty(ixs: Indexes, payloads: seq<Option<Value>>)
    requires forall name :: name in ixs ==> ixs[name].postings == map[]
    ensures Coherent(Backfilled(ixs, payloads, |payloads|), payloads)
    ensures Kinds(Backfilled(ixs, payloads, |payloads|)) == Kinds(ixs)
  {
    BackfillPointwise(ixs, payloads, |payloads|);
    forall name | name in ixs ensures CoherentAt(Filled(ixs[name], name, payloads, |payloads|), name, payloads) {
      FilledCoherent(ixs[name], name, payloads);
    }
  }

  lemma {:induction false} UpsertsKeepTier(d: Data, batch: seq<Point>, dim: nat)
    requires Valid(d, dim) && forall i :: 0 <= i < |batch| ==> |batch[i].vector| == dim
    ensures var e := UpsertedAll(d, batch, dim);
      && e.base == d.base && e.committed == d.committed && (d.dirty || batch != [] ==> e.dirty)
      && (e.graph.None? <==> d.graph.None?)
  {
    if batch != [] {
      UpsertsKeepTier(d, batch[..|batch| - 1], dim);
    }
  }

  lemma LiveGraphNodes(d: Data, dim: nat)
    requires Valid(d, dim)
    ensures Shape(d, dim)
    ensures forall s :: s in LiveGraph(d, dim).nodes <==> 0 <= s < |d.ids| && s !in d.tombstones
  {
  }

  lemma CompactedIsClean(d: Data, dim: nat, metric: Metric)
    requires Valid(d, dim)
    ensures var e := Compacted(d, dim, metric); e.dirty && e.base.None? && e.committed.None?
    ensures Compacted(d, dim, metric).graph.None? <==> metric == DotProduct
  {
    ResetFacts(d, dim, metric);
    PointWidths(d, dim);
    UpsertsKeepTier(Reset(d, metric), Points(d, dim), dim);
  }
}
