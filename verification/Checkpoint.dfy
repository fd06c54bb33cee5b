/** Checkpoint, vacuum and reopen (crates/veclite/src/database.rs and
    persist/mod.rs): what is on disk always rebuilds what is in memory, and an
    unchanged collection is carried forward by reference soundly. */
module Checkpoint {
  import opened Core
  import opened Aliases
  import opened Collections
  import opened Crashes
  import opened Linear
  import opened PayloadIndex
  import opened Recovery
  import opened Registry
  import opened Words
  import Slots

  /** The decoded content of one collection's sealed segments. */
  datatype Segment = Segment(config: Config, points: seq<Point>, kinds: map<string, IndexKind>)

  datatype TocEntry = TocEntry(id: nat, name: string, aliases: seq<string>, counts: Slots.Committed)

  /** The main file and the readable part of its journal. Segments never change once
      written. `torn`: bytes of an unfinished entry follow the journal, so nothing
      that is appended after them can be read. */
  datatype Disk = Disk(segments: map<nat, Segment>, toc: map<string, TocEntry>, journal: seq<Entry>, torn: bool)

  datatype Sys = Sys(mem: State, disk: Disk)

  /** A sparse lane that is present has entries. */
  predicate Lasting(p: Point) {
    p.sparse.Some? ==> p.sparse.value.indices != []
  }

  ghost predicate AllLasting(l: seq<Point>) {
    forall p :: p in l ==> Lasting(p)
  }

  /** Sealed points decode to themselves exactly when no lane is present but empty. */
  lemma DecodedIff(l: seq<Point>)
    ensures Decoded(l) == l <==> AllLasting(l)
  {
    if AllLasting(l) {
      forall i | 0 <= i < |l| ensures Decoded(l)[i] == l[i] {
        assert Lasting(l[i]);
      }
    }
    if Decoded(l) == l {
      forall p | p in l ensures Lasting(p) {
        var i :| 0 <= i < |l| && l[i] == p;
        assert Decoded(l)[i] == p;
      }
    }
  }

  function Content(c: Coll): Segment {
    Segment(c.config, Decoded(PointsOf(c)), Kinds(c.data.indexes))
  }

  // ----- loading ------------------------------------------------------------

  /** What `seal` writes for a collection the registry can hold. */
  ghost predicate Loadable(env: Env, seg: Segment) {
    && Buildable(seg.config) && Slots.DistinctIds(seg.points)
    && AllStored(seg.config, env.sqrt, seg.points) && AllLasting(seg.points)
  }

  /** Empty indexes for a sealed set of declarations. */
  function FromKinds(kinds: map<string, IndexKind>): Indexes {
    map name | name in kinds :: KeyIndex(kinds[name], map[])
  }

  lemma StoredWidths(env: Env, seg: Segment)
    requires Loadable(env, seg)
    ensures forall i :: 0 <= i < |seg.points| ==> |seg.points[i].vector| == seg.config.dimension
  {
    forall i | 0 <= i < |seg.points| ensures |seg.points[i].vector| == seg.config.dimension {
      assert seg.points[i] in seg.points;
    }
  }

  function LoadedData(env: Env, seg: Segment, counts: Slots.Committed): (d: Slots.Data)
    requires Loadable(env, seg)
    ensures Slots.Valid(d, seg.config.dimension)
  {
    var dim, empty := seg.config.dimension, Slots.EmptyData(seg.config.metric, FromKinds(seg.kinds));
    Slots.EmptyValid(seg.config.metric, FromKinds(seg.kinds), dim);
    StoredWidths(env, seg);
    var d := Slots.UpsertedAll(empty, seg.points, dim);
    Slots.SameValid(d, Sealed(d, counts), dim);
    Sealed(d, counts)
  }

  /** A collection filled from sealed points holds them, and has no base tier. */
  lemma FilledFacts(kinds: map<string, IndexKind>, metric: Metric, l: seq<Point>, dim: nat)
    requires Slots.DistinctIds(l) && forall i :: 0 <= i < |l| ==> |l[i].vector| == dim
    ensures var empty := Slots.EmptyData(metric, FromKinds(kinds));
      && Slots.Valid(empty, dim)
      && var d := Slots.UpsertedAll(empty, l, dim);
      && Slots.Points(d, dim) == l && Kinds(d.indexes) == kinds && d.base.None?
  {
    var empty := Slots.EmptyData(metric, FromKinds(kinds));
    Slots.EmptyValid(metric, FromKinds(kinds), dim);
    EmptyHolds(kinds, metric, dim);
    hide Slots.Valid, Slots.EmptyData;
    LoadedPoints(empty, l, dim);
    UpsertsKeepTier(empty, l, dim);
  }

  lemma EmptyHolds(kinds: map<string, IndexKind>, metric: Metric, dim: nat)
    ensures var empty := Slots.EmptyData(metric, FromKinds(kinds));
      Slots.Valid(empty, dim) && Slots.Points(empty, dim) == [] && empty.base.None? && Kinds(empty.indexes) == kinds
  {
    Slots.EmptyValid(metric, FromKinds(kinds), dim);
    assert Kinds(FromKinds(kinds)) == kinds;
  }

  /** A loaded collection holds what was sealed, and knows that it does. */
  lemma LoadedDataFacts(env: Env, seg: Segment, counts: Slots.Committed)
    requires Loadable(env, seg)
    ensures var d := LoadedData(env, seg, counts);
      && Slots.Points(d, seg.config.dimension) == seg.points && Kinds(d.indexes) == seg.kinds
      && d.base.None? && !d.dirty && d.committed == Some(counts)
  {
    var dim := seg.config.dimension;
    StoredWidths(env, seg);
    FilledFacts(seg.kinds, seg.config.metric, seg.points, dim);
    var d := Slots.UpsertedAll(Slots.EmptyData(seg.config.metric, FromKinds(seg.kinds)), seg.points, dim);
    Slots.SameValid(d, Sealed(d, counts), dim);
  }

  lemma LoadedPoints(d: Slots.Data, l: seq<Point>, dim: nat)
    requires Slots.Valid(d, dim) && Slots.Points(d, dim) == [] && Slots.DistinctIds(l)
    requires forall i :: 0 <= i < |l| ==> |l[i].vector| == dim
    ensures Slots.Points(Slots.UpsertedAll(d, l, dim), dim) == l
  {
    Slots.UpsertAllRefines(d, l, dim);
    assert [] + l == l;
    Slots.PutAllFresh([], l);
  }

  function LoadedColl(env: Env, e: TocEntry, seg: Segment): (c: Coll)
    requires Loadable(env, seg)
  {
    CollState(e.name, e.aliases, seg.config, e.id, LoadedData(env, seg, e.counts))
  }

  /** Every collection the file lists can be loaded. */
  ghost predicate DiskOk(env: Env, disk: Disk) {
    && (forall name :: name in disk.toc ==> EntryOk(env, disk.segments, name, disk.toc[name]))
    && DistinctIdsIn(Each(disk.toc, EntryId))
  }

  ghost predicate EntryOk(env: Env, segments: map<nat, Segment>, name: string, e: TocEntry) {
    e.name == name && e.counts.refs in segments && Loadable(env, segments[e.counts.refs])
  }

  function EntryId(e: TocEntry): nat {
    e.id
  }

  ghost function LoadedAt(env: Env, disk: Disk, name: string): Coll
    requires DiskOk(env, disk) && name in disk.toc
  {
    LoadedColl(env, disk.toc[name], disk.segments[disk.toc[name].counts.refs])
  }

  ghost function Loaded(env: Env, disk: Disk): map<string, Coll>
    requires DiskOk(env, disk)
  {
    map name | name in disk.toc :: LoadedAt(env, disk, name)
  }

  function EntryView(e: TocEntry, seg: Segment): View {
    View(e.id, e.aliases, seg.config, seg.points, seg.kinds)
  }

  ghost function Saved(disk: Disk): Views
    requires forall name :: name in disk.toc ==> disk.toc[name].counts.refs in disk.segments
  {
    map name | name in disk.toc :: EntryView(disk.toc[name], disk.segments[disk.toc[name].counts.refs])
  }

  lemma LoadedCollShows(env: Env, e: TocEntry, seg: Segment)
    requires Loadable(env, seg)
    ensures var c := LoadedColl(env, e, seg); Shown(c) == EntryView(e, seg) && OwnName(c) == e.name && IdOf(c) == e.id
  {
    LoadedDataFacts(env, seg, e.counts);
  }

  lemma EachIs<C, V>(m: map<string, C>, f: C -> V, v: map<string, V>)
    requires m.Keys == v.Keys && forall name :: name in m ==> f(m[name]) == v[name]
    ensures Each(m, f) == v
  {
  }

  lemma OneLoaded(env: Env, disk: Disk, name: string)
    requires DiskOk(env, disk) && name in disk.toc
    ensures var c := Loaded(env, disk)[name];
      Shown(c) == Saved(disk)[name] && OwnName(c) == name && IdOf(c) == disk.toc[name].id
  {
    var e := disk.toc[name];
    assert EntryOk(env, disk.segments, name, e);
    LoadedCollShows(env, e, disk.segments[e.counts.refs]);
  }

  lemma LoadedShows(env: Env, disk: Disk)
    requires DiskOk(env, disk)
    ensures Keyed(Loaded(env, disk)) && ViewsOf(Loaded(env, disk)) == Saved(disk)
  {
    var colls := Loaded(env, disk);
    forall name | name in colls
      ensures Shown(colls[name]) == Saved(disk)[name] && OwnName(colls[name]) == name &&
        IdOf(colls[name]) == disk.toc[name].id
    {
      OneLoaded(env, disk, name);
    }
    EachIs<Coll, View>(colls, Shown, Saved(disk));
    EachIs<Coll, nat>(colls, IdOf, Each(disk.toc, EntryId));
    EachIs<Coll, string>(colls, OwnName, map name | name in colls :: name);
  }

  // ----- collections fit to be carried forward ------------------------------

  /** A collection without a base tier whose points validation leaves alone. */
  ghost predicate Healthy(env: Env, c: Coll) {
    c.data.base.None? && Buildable(c.config) && AllStored(c.config, env.sqrt, PointsOf(c))
  }

  /** Whenever references are offered for reuse, the segments they name decode
      to the live points and the declared indexes of this moment. */
  ghost predicate Carries(segments: map<nat, Segment>, c: Coll) {
    var k := Reusable(c.data);
    k.Some? ==> k.value.refs in segments && segments[k.value.refs] == Content(c)
  }

  ghost predicate Good(env: Env, segments: map<nat, Segment>, c: Coll) {
    Healthy(env, c) && Carries(segments, c)
  }

  ghost predicate AllGood(env: Env, segments: map<nat, Segment>, colls: map<string, Coll>) {
    forall name :: name in colls ==> Good(env, segments, colls[name])
  }

  /** A write: unless it marks the store dirty it changed nothing. */
  ghost predicate Follows(env: Env, c: Coll, e: Coll) {
    e.config == c.config && (e.data.dirty || e.data == c.data) && (Healthy(env, c) ==> Healthy(env, e))
  }

  lemma GoodFollows(env: Env, segments: map<nat, Segment>, c: Coll, e: Coll)
    requires Good(env, segments, c) && Follows(env, c, e)
    ensures Good(env, segments, e)
  {
  }

  lemma {:induction false} PutAllKeeps(keep: Point -> bool, l: seq<Point>, batch: seq<Point>)
    requires (forall p :: p in l ==> keep(p)) && (forall p :: p in batch ==> keep(p))
    ensures forall p :: p in Slots.PutAll(l, batch) ==> keep(p)
  {
    if batch != [] {
      var front, last := batch[..|batch| - 1], batch[|batch| - 1];
      forall p | p in front ensures p in batch {
      }
      PutAllKeeps(keep, l, front);
      Slots.WithoutMembers(Slots.PutAll(l, front), last.id);
      assert last in batch;
    }
  }

  lemma {:induction false} WithoutAllKeeps(keep: Point -> bool, l: seq<Point>, ids: seq<string>)
    requires forall p :: p in l ==> keep(p)
    ensures forall p :: p in Slots.WithoutAll(l, ids) ==> keep(p)
  {
    if ids != [] {
      WithoutAllKeeps(keep, l, ids[..|ids| - 1]);
      Slots.WithoutMembers(Slots.WithoutAll(l, ids[..|ids| - 1]), ids[|ids| - 1]);
    }
  }

  /** Stored as validation left it. */
  ghost function Keeper(config: Config, sqrt: real -> real): Point -> bool {
    p => Stored(config, sqrt, p)
  }

  lemma PreparedLasting(env: Env, config: Config, batch: seq<Point>, reserved: bool)
    requires AllLasting(batch) && PrepareAll(config, env.sqrt, batch, reserved).Success?
    ensures AllLasting(PrepareAll(config, env.sqrt, batch, reserved).value)
  {
    var prepared := PrepareAll(config, env.sqrt, batch, reserved).value;
    forall p | p in prepared ensures Lasting(p) {
      var i :| 0 <= i < |prepared| && prepared[i] == p;
      assert Prepare(config, env.sqrt, batch[i], reserved) == Success(p);
      assert batch[i] in batch;
    }
  }

  lemma {:induction false} DeletesMarkDirty(d: Slots.Data, ids: seq<string>, dim: nat)
    requires Slots.Valid(d, dim)
    ensures var e := Slots.DeletedAll(d, ids, dim); e.base == d.base && (e.dirty || e == d)
  {
    if ids != [] {
      DeletesMarkDirty(d, ids[..|ids| - 1], dim);
    }
  }

  lemma WithPointsFollows(env: Env, c: Coll, batch: seq<Point>, reserved: bool)
    requires SqrtLaw(env.sqrt) && PrepareAll(c.config, env.sqrt, batch, reserved).Success?
    ensures Follows(env, c, WithPoints(env, c, batch, reserved))
  {
    var prepared := PrepareAll(c.config, env.sqrt, batch, reserved).value;
    PrepareAllIdempotent(c.config, env.sqrt, batch, reserved);
    PreparedWidths(env, c.config, batch, reserved);
    UpsertsKeepTier(c.data, prepared, c.config.dimension);
    WithPointsShows(env, c, batch, reserved);
    if Healthy(env, c) {
      PutAllKeeps(Keeper(c.config, env.sqrt), PointsOf(c), prepared);
    }
  }

  lemma WithoutIdsFollows(env: Env, c: Coll, ids: seq<string>)
    ensures Follows(env, c, WithoutIds(c, ids))
  {
    DeletesMarkDirty(c.data, ids, c.config.dimension);
    WithoutIdsShows(c, ids);
    if Healthy(env, c) {
      WithoutAllKeeps(Keeper(c.config, env.sqrt), PointsOf(c), ids);
    }
  }

  lemma WithIndexFollows(env: Env, c: Coll, key: string, kind: IndexKind)
    ensures Follows(env, c, WithIndex(c, key, kind))
  {
    WithIndexShows(env, c, key, kind);
  }

  lemma NewCollGood(env: Env, segments: map<nat, Segment>, name: string, aliases: seq<string>, config: Config, id: nat,
                    declared: seq<(string, IndexKind)>)
    requires Buildable(config)
    ensures Good(env, segments, NewColl(name, aliases, config, id, declared))
  {
    NewCollShows(name, aliases, config, id, declared);
  }

  /** An entry whose points keep their lanes when sealed. */
  ghost predicate LastingBody(body: Body) {
    body.UpsertPoints? ==> AllLasting(body.points)
  }

  ghost predicate AllLastingEntries(es: seq<Entry>) {
    forall i :: 0 <= i < |es| ==> LastingBody(es[i].body)
  }

  ghost predicate LastingOp(op: Op) {
    op.Upsert? ==> AllLasting(op.batch)
  }

  lemma {:induction false} DeclarationsLast(id: nat, declared: seq<(string, IndexKind)>)
    ensures AllLastingEntries(Declarations(id, declared))
  {
    if declared != [] {
      DeclarationsLast(id, declared[..|declared| - 1]);
    }
  }

  lemma LoggedLasts(env: Env, s: State, op: Op)
    requires LastingOp(op)
    ensures AllLastingEntries(Step(env, s, op).logged)
  {
    if op.Create? {
      DeclarationsLast(s.nextId, op.declared);
    }
  }

  lemma ReplayedCollFollows(env: Env, c: Coll, body: Body)
    requires SqrtLaw(env.sqrt)
    ensures var r := ReplayedColl(env, c, body); r.Success? ==> Follows(env, c, r.value)
  {
    match body
    case UpsertPoints(points) =>
      if PrepareAll(c.config, env.sqrt, points, true).Success? {
        WithPointsFollows(env, c, points, true);
      }
    case DeleteIds(ids) => WithoutIdsFollows(env, c, ids);
    case DeclareKey(key, kind) => WithIndexFollows(env, c, key, kind);
    case _ =>
  }

  lemma UpdateKeepsGood(env: Env, segments: map<nat, Segment>, colls: map<string, Coll>, name: string, c: Coll)
    requires AllGood(env, segments, colls) && Good(env, segments, c)
    ensures AllGood(env, segments, colls[name := c])
    ensures AllGood(env, segments, colls - {name})
  {
  }

  lemma ChangeKeepsGood(env: Env, segments: map<nat, Segment>, colls: map<string, Coll>, name: string, c: Coll)
    requires AllGood(env, segments, colls) && name in colls && Follows(env, colls[name], c)
    ensures AllGood(env, segments, colls[name := c])
  {
    GoodFollows(env, segments, colls[name], c);
  }

  lemma ReplayKeepsGood(env: Env, segments: map<nat, Segment>, s: State, e: Entry)
    requires SqrtLaw(env.sqrt) && AllGood(env, segments, s.colls)
    ensures var r := Replayed(env, s, e); r.Success? ==> AllGood(env, segments, r.value.colls)
  {
    hide Slots.Valid;
    var at := NameOf(IdsOf(s.colls), e.collId);
    if e.body.CreateColl? {
      if at.None? && Buildable(e.body.config) {
        NewCollGood(env, segments, e.body.name, e.body.aliases, e.body.config, e.collId, []);
      }
    } else if at.Some? {
      var c := s.colls[at.value];
      ReplayedCollFollows(env, c, e.body);
      var r := ReplayedColl(env, c, e.body);
      if r.Success? {
        ChangeKeepsGood(env, segments, s.colls, at.value, r.value);
      }
      UpdateKeepsGood(env, segments, s.colls, at.value, c);
      if e.body.Rename? {
        GoodFollows(env, segments, c, c.(name := e.body.newName));
        UpdateKeepsGood(env, segments, s.colls - {at.value}, e.body.newName, c.(name := e.body.newName));
      }
    }
  }

  lemma {:induction false} ReplayAllKeepsGood(env: Env, segments: map<nat, Segment>, s: State, es: seq<Entry>)
    requires SqrtLaw(env.sqrt) && AllGood(env, segments, s.colls)
    ensures var r := ReplayedAll(env, s, es); r.Success? ==> AllGood(env, segments, r.value.colls)
  {
    if es != [] {
      ReplayAllKeepsGood(env, segments, s, es[..|es| - 1]);
      var before := ReplayedAll(env, s, es[..|es| - 1]);
      if before.Success? {
        ReplayKeepsGood(env, segments, before.value, es[|es| - 1]);
      }
    }
  }

  lemma AliasStepsKeepGood(env: Env, segments: map<nat, Segment>, s: State, op: Op)
    requires AllGood(env, segments, s.colls) && (op.CreateAlias? || op.DeleteAlias?)
    ensures AllGood(env, segments, Step(env, s, op).state.colls)
  {
    if op.CreateAlias? && Aliased(s, op.alias, op.target).answer.Success? {
      var c := s.colls[op.target];
      ChangeKeepsGood(env, segments, s.colls, op.target, c.(aliases := c.aliases + [op.alias]));
    }
    if op.DeleteAlias? && op.alias in s.aliases && s.aliases[op.alias] in s.colls {
      var c := s.colls[s.aliases[op.alias]];
      ChangeKeepsGood(env, segments, s.colls, s.aliases[op.alias], c.(aliases := Retained(c.aliases, op.alias)));
    }
  }

  lemma NameStepsKeepGood(env: Env, segments: map<nat, Segment>, s: State, op: Op)
    requires AllGood(env, segments, s.colls) && (op.Create? || op.Drop? || op.RenameTo?)
    ensures AllGood(env, segments, Step(env, s, op).state.colls)
  {
    hide Slots.Valid;
    match op
    case Create(name, config, declared) =>
      if Created(env, s, name, config, declared).answer.Success? {
        NewCollGood(env, segments, name, [], config, s.nextId, declared);
      }
    case Drop(name) =>
    case RenameTo(from, to) =>
      if Renamed(s, from, to).answer.Success? {
        GoodFollows(env, segments, s.colls[from], s.colls[from].(name := to));
        UpdateKeepsGood(env, segments, s.colls, from, s.colls[from]);
        UpdateKeepsGood(env, segments, s.colls - {from}, to, s.colls[from].(name := to));
      }
  }

  lemma UpsertKeepsGood(env: Env, segments: map<nat, Segment>, s: State, id: nat, batch: seq<Point>, reserved: bool)
    requires SqrtLaw(env.sqrt) && AllGood(env, segments, s.colls)
    ensures AllGood(env, segments, PointsUpserted(env, s, id, batch, reserved).state.colls)
  {
    var at := NameOf(IdsOf(s.colls), id);
    if PointsUpserted(env, s, id, batch, reserved).answer.Success? {
      var c := s.colls[at.value];
      WithPointsFollows(env, c, batch, reserved);
      ChangeKeepsGood(env, segments, s.colls, at.value, WithPoints(env, c, batch, reserved));
    }
  }

  lemma DeleteKeepsGood(env: Env, segments: map<nat, Segment>, s: State, id: nat, ids: seq<string>)
    requires AllGood(env, segments, s.colls)
    ensures AllGood(env, segments, PointsDeleted(s, id, ids).state.colls)
  {
    var at := NameOf(IdsOf(s.colls), id);
    if at.Some? {
      WithoutIdsFollows(env, s.colls[at.value], ids);
      ChangeKeepsGood(env, segments, s.colls, at.value, WithoutIds(s.colls[at.value], ids));
    }
  }

  lemma IndexKeepsGood(env: Env, segments: map<nat, Segment>, s: State, id: nat, key: string, kind: IndexKind)
    requires AllGood(env, segments, s.colls)
    ensures AllGood(env, segments, IndexCreated(s, id, key, kind).state.colls)
  {
    var at := NameOf(IdsOf(s.colls), id);
    if at.Some? {
      WithIndexFollows(env, s.colls[at.value], key, kind);
      ChangeKeepsGood(env, segments, s.colls, at.value, WithIndex(s.colls[at.value], key, kind));
    }
  }

  lemma StepKeepsGood(env: Env, segments: map<nat, Segment>, s: State, op: Op)
    requires SqrtLaw(env.sqrt) && AllGood(env, segments, s.colls)
    ensures AllGood(env, segments, Step(env, s, op).state.colls)
  {
    match op
    case Upsert(id, batch, reserved) => UpsertKeepsGood(env, segments, s, id, batch, reserved);
    case Delete(id, ids) => DeleteKeepsGood(env, segments, s, id, ids);
    case CreateIndex(id, key, kind) => IndexKeepsGood(env, segments, s, id, key, kind);
    case CreateAlias(_, _) => AliasStepsKeepGood(env, segments, s, op);
    case DeleteAlias(_) => AliasStepsKeepGood(env, segments, s, op);
    case _ => NameStepsKeepGood(env, segments, s, op);
  }

  // ----- sealing ------------------------------------------------------------

  /** One table-of-contents entry: carried forward, or written anew. */
  ghost predicate SealedAs(reuse: bool, before: map<nat, Segment>, after: map<nat, Segment>, c: Coll, e: TocEntry) {
    && e.id == c.id && e.name == c.name && e.aliases == c.aliases
    && if reuse && Reusable(c.data).Some? then e.counts == Reusable(c.data).value
       else
         && e.counts.refs !in before && e.counts.refs in after && after[e.counts.refs] == Content(c)
         && e.counts.vectorCount == |PointsOf(c)| && e.counts.tombstoneCount == 0
  }

  /** What a checkpoint takes from a store: references to carry forward, or the live
      points and declarations to write. Either way the file gets this moment's content. */
  method ToSeal(store: CollectionData, dim: nat, allowReuse: bool, ghost c: Coll, ghost segments: map<nat, Segment>)
    returns (reused: Option<Slots.Committed>, live: seq<Point>, kinds: map<string, IndexKind>)
    requires c.data == store.Model() && c.config.dimension == dim && Carries(segments, c)
    ensures reused.Some? ==> reused.value.refs in segments && segments[reused.value.refs] == Content(c)
    ensures reused.None? ==> Segment(c.config, Decoded(live), kinds) == Content(c) && live == PointsOf(c)
    ensures reused.Some? <==> allowReuse && !store.dirty && (store.base.Some? || store.committed.Some?)
  {
    reused, live, kinds := None, [], map[];
    if allowReuse {
      reused := store.CleanReuse();
    }
    if reused.None? {
      live := store.LivePoints(dim);
      kinds := Kinds(store.payloadIndexes.byKey);
    }
  }

  /** `toc` lists every collection; written segments stay as they are. */
  ghost predicate Sealing(
    reuse: bool, before: map<nat, Segment>, colls: map<string, Coll>, after: map<nat, Segment>,
    toc: map<string, TocEntry>)
  {
    && toc.Keys == colls.Keys
    && (forall r :: r in before ==> r in after && after[r] == before[r])
    && (forall name :: name in colls ==> SealedAs(reuse, before, after, colls[name], toc[name]))
  }

  function MarkedSealed(c: Coll, counts: Slots.Committed): Coll {
    Slots.SameValid(c.data, Sealed(c.data, counts), c.config.dimension);
    c.(data := Sealed(c.data, counts))
  }

  function AllMarked(colls: map<string, Coll>, toc: map<string, TocEntry>): map<string, Coll>
    requires toc.Keys == colls.Keys
  {
    map name | name in colls :: MarkedSealed(colls[name], toc[name].counts)
  }

  function CompactedColl(c: Coll): Coll {
    Slots.CompactRefines(c.data, c.config.dimension, c.config.metric);
    c.(data := Slots.Compacted(c.data, c.config.dimension, c.config.metric))
  }

  predicate NothingToCommit(colls: map<string, Coll>, disk: Disk) {
    && colls.Keys != {} && disk.journal == [] && !disk.torn
    && forall name :: name in colls ==> Reusable(colls[name].data).Some?
  }

  // ----- transitions --------------------------------------------------------

  /** Appending after an unfinished entry does not reach a reader. */
  function Appended(disk: Disk, es: seq<Entry>): Disk {
    if disk.torn then disk else disk.(journal := disk.journal + es)
  }

  /** One call of the API. Exact runs keep to creations whose indexes replay as
      declared and to sparse lanes that have entries. */
  ghost predicate Operates(exact: bool, env: Env, s: Sys, t: Sys, op: Op) {
    var o := Step(env, s.mem, op);
    && (exact ==> Recoverable(op) && LastingOp(op))
    && t == Sys(o.state, Appended(s.disk, o.logged))
  }

  ghost predicate Works(exact: bool, env: Env, s: Sys, t: Sys) {
    exists op :: Operates(exact, env, s, t, op)
  }

  ghost predicate Commits(s: Sys, t: Sys) {
    && Sealing(true, s.disk.segments, s.mem.colls, t.disk.segments, t.disk.toc)
    && t.disk.journal == [] && !t.disk.torn
    && t.mem == s.mem.(colls := AllMarked(s.mem.colls, t.disk.toc))
  }

  ghost predicate Checkpoints(s: Sys, t: Sys) {
    if NothingToCommit(s.mem.colls, s.disk) then t == s else Commits(s, t)
  }

  /** Compact everything, then write a fresh file; old references mean nothing there. */
  ghost predicate Vacuums(s: Sys, t: Sys) {
    && t.mem == s.mem.(colls := Each<Coll, Coll>(s.mem.colls, CompactedColl))
    && Sealing(false, map[], t.mem.colls, t.disk.segments, t.disk.toc)
    && t.disk.journal == [] && !t.disk.torn
  }

  /** The process dies, what the journal had not yet synced is lost, with or without
      an unfinished entry left behind, and the file is opened again. */
  ghost predicate Reopens(env: Env, s: Sys, t: Sys) {
    && |t.disk.journal| <= |s.disk.journal|
    && t.disk == s.disk.(journal := s.disk.journal[..|t.disk.journal|], torn := t.disk.torn)
    && Opens(env, t.disk, t.mem)
  }

  ghost predicate Opens(env: Env, disk: Disk, mem: State) {
    && DiskOk(env, disk)
    && exists base: State :: LoadedFrom(env, disk, base) && Continues(env, base, disk, mem)
  }

  /** The registry before replay: where two collections list an alias, the one
      loaded last gets it. */
  ghost predicate LoadedFrom(env: Env, disk: Disk, base: State)
    requires DiskOk(env, disk)
  {
    base.colls == Loaded(env, disk) && Gathered(base.aliases, OwnOf(base.colls))
  }

  ghost predicate Gathered(aliases: map<string, string>, own: Own) {
    && (forall a :: a in aliases ==> aliases[a] in own && a in own[aliases[a]])
    && (forall t, a :: t in own && a in own[t] ==> a in aliases)
  }

  ghost predicate Continues(env: Env, base: State, disk: Disk, mem: State) {
    Continued(ReplayedAll(env, base, disk.journal), disk, mem)
  }

  /** New ids start above all that the file and its journal mention. */
  ghost predicate Continued(r: Result<State, Error>, disk: Disk, mem: State) {
    && r.Success? && mem.colls == r.value.colls && mem.aliases == r.value.aliases
    && Below(IdsOf(mem.colls), mem.nextId) && Below(Each(disk.toc, EntryId), mem.nextId)
    && AllBelow(disk.journal, mem.nextId)
  }

  ghost predicate SysStep(exact: bool, env: Env, s: Sys, t: Sys) {
    Works(exact, env, s, t) || Checkpoints(s, t) || Vacuums(s, t) || Reopens(env, s, t)
  }

  // ----- creations that were journaled and refused --------------------------

  /** No creation in the journal has graph parameters out of bounds. */
  ghost predicate AllBuildable(es: seq<Entry>) {
    forall i :: 0 <= i < |es| && es[i].body.CreateColl? ==> Buildable(es[i].body.config)
  }

  /** The entries before the first creation that cannot be replayed. */
  function Sound(es: seq<Entry>): (r: seq<Entry>)
    ensures r <= es
  {
    if es == [] then []
    else
      var front, e := Sound(es[..|es| - 1]), es[|es| - 1];
      if |front| == |es| - 1 && (e.body.CreateColl? ==> Buildable(e.body.config)) then es else front
  }

  lemma {:induction false} SoundIs(es: seq<Entry>)
    ensures AllBuildable(Sound(es))
    ensures |Sound(es)| < |es| ==>
      es[|Sound(es)|].body.CreateColl? && !Buildable(es[|Sound(es)|].body.config)
    ensures Sound(es) == es <==> AllBuildable(es)
  {
    if es != [] {
      SoundIs(es[..|es| - 1]);
    }
  }

  /** The sound part is determined by where it ends. */
  lemma SoundUpTo(es: seq<Entry>, n: nat)
    requires n <= |es| && AllBuildable(es[..n])
    requires n < |es| ==> es[n].body.CreateColl? && !Buildable(es[n].body.config)
    ensures Sound(es) == es[..n]
  {
    SoundIs(es);
  }

  lemma SoundPrefix(es: seq<Entry>, c: nat)
    requires c <= |es|
    ensures Sound(es[..c]) == if c <= |Sound(es)| then es[..c] else Sound(es)
  {
    SoundIs(es);
    var n := |Sound(es)|;
    if c <= n {
      forall i | 0 <= i < c ensures es[i].body.CreateColl? ==> Buildable(es[i].body.config) {
        assert Sound(es)[i] == es[i];
      }
      SoundUpTo(es[..c], c);
    } else {
      assert es[..c][..n] == Sound(es);
      SoundUpTo(es[..c], n);
    }
  }

  /** Appending to a journal. */
  lemma SoundJoin(es: seq<Entry>, more: seq<Entry>)
    ensures Sound(es) == es && AllBuildable(more) ==> Sound(es + more) == es + more
    ensures |Sound(es)| < |es| ==> Sound(es + more) == Sound(es) && (es + more)[|Sound(es)|] == es[|Sound(es)|]
    ensures Sound(es) == es && more != [] && more[0].body.CreateColl? && !Buildable(more[0].body.config) ==>
      Sound(es + more) == es
  {
    SoundIs(es);
    var all := es + more;
    if Sound(es) != es {
      assert all[..|Sound(es)|] == Sound(es);
      SoundUpTo(all, |Sound(es)|);
    } else if AllBuildable(more) {
      assert all[..|all|] == all;
      SoundUpTo(all, |all|);
    } else if more != [] && more[0].body.CreateColl? && !Buildable(more[0].body.config) {
      assert all[..|es|] == es;
      SoundUpTo(all, |es|);
    }
  }

  // ----- the invariant ------------------------------------------------------

  ghost predicate LastingViews(v: Views) {
    forall n :: n in v ==> AllLasting(v[n].points)
  }

  /** Up to a refused creation the journal means something over the file; where it
      was appended to, it means what memory shows. A refused creation has an id of
      its own. */
  ghost predicate Recovers(exact: bool, env: Env, s: Sys) {
    && DiskOk(env, s.disk)
    && var sound := Sound(s.disk.journal);
      var means := AppliedAll(env, Saved(s.disk), sound);
      && means.Some?
      && (|sound| < |s.disk.journal| ==> NameOf(ViewIds(means.value), s.disk.journal[|sound|].collId).None?)
      && (sound == s.disk.journal && !s.disk.torn ==> Alike(exact, means.value, ViewsOf(s.mem.colls)))
  }

  ghost predicate Inv(exact: bool, env: Env, s: Sys) {
    && Wf(s.mem) && AllGood(env, s.disk.segments, s.mem.colls)
    && (exact ==> AllLastingEntries(s.disk.journal) && LastingViews(ViewsOf(s.mem.colls)))
    && Recovers(exact, env, s)
  }

  lemma {:induction false} AppliedBuildable(env: Env, v: Views, es: seq<Entry>)
    requires AppliedAll(env, v, es).Some?
    ensures AllBuildable(es)
  {
    if es != [] {
      AppliedBuildable(env, v, es[..|es| - 1]);
    }
  }

  lemma {:induction false} AppliedPrefix(env: Env, v: Views, es: seq<Entry>, n: nat)
    requires n <= |es| && AppliedAll(env, v, es).Some?
    ensures AppliedAll(env, v, es[..n]).Some?
  {
    assert es[..n] + es[n..] == es;
    AppliedJoin(env, v, es[..n], es[n..]);
  }

  lemma LastingChange(env: Env, w: View, body: Body)
    requires AllLasting(w.points) && LastingBody(body)
    requires body.UpsertPoints? ==> PrepareAll(w.config, env.sqrt, body.points, true).Success?
    ensures AllLasting(Changed(env, w, body).points)
  {
    match body
    case UpsertPoints(points) =>
      PreparedLasting(env, w.config, points, true);
      PutAllKeeps(p => Lasting(p), w.points, PrepareAll(w.config, env.sqrt, points, true).value);
    case DeleteIds(ids) => WithoutAllKeeps(p => Lasting(p), w.points, ids);
    case _ =>
  }

  lemma LastingStep(env: Env, v: Views, e: Entry)
    requires LastingViews(v) && LastingBody(e.body) && Admissible(env, v, e)
    ensures LastingViews(Applied(env, v, e))
  {
    var at := NameOf(ViewIds(v), e.collId);
    if Changes(e.body) {
      LastingChange(env, v[at.value], e.body);
    }
  }

  lemma {:induction false} AppliedLasting(env: Env, v: Views, es: seq<Entry>)
    requires LastingViews(v) && AllLastingEntries(es) && AppliedAll(env, v, es).Some?
    ensures LastingViews(AppliedAll(env, v, es).value)
  {
    if es != [] {
      AppliedLasting(env, v, es[..|es| - 1]);
      LastingStep(env, AppliedAll(env, v, es[..|es| - 1]).value, es[|es| - 1]);
    }
  }

  lemma StepKeepsLasting(env: Env, s: State, op: Op)
    requires Wf(s) && SqrtLaw(env.sqrt) && Recoverable(op) && LastingOp(op) && LastingViews(ViewsOf(s.colls))
    ensures LastingViews(ViewsOf(Step(env, s, op).state.colls))
  {
    if !Unbuildable(env, s, op) {
      StepRefines(true, env, s, op);
      LoggedLasts(env, s, op);
      hide Step;
      AppliedLasting(env, ViewsOf(s.colls), Step(env, s, op).logged);
    }
  }

  /** What a refused creation leaves: nothing in memory, and in the journal an id of
      its own. */
  lemma RefusedLeaves(env: Env, s: State, op: Op)
    requires Wf(s) && Unbuildable(env, s, op)
    ensures var o := Step(env, s, op);
      && o.state.colls == s.colls && o.logged != []
      && o.logged[0].body.CreateColl? && !Buildable(o.logged[0].body.config)
      && NameOf(IdsOf(s.colls), o.logged[0].collId).None?
  {
    LoggedSize(env, s, op);
  }

  /** A creation nobody can read, written after a sound journal with an id of its own. */
  lemma RefusedEntry(exact: bool, env: Env, s: Sys, t: Sys, logged: seq<Entry>, means: Views)
    requires DiskOk(env, s.disk) && t.disk == s.disk.(journal := s.disk.journal + logged)
    requires Sound(s.disk.journal) == s.disk.journal && AppliedAll(env, Saved(s.disk), s.disk.journal) == Some(means)
    requires logged != [] && logged[0].body.CreateColl? && !Buildable(logged[0].body.config)
    requires NameOf(ViewIds(means), logged[0].collId).None?
    ensures Recovers(exact, env, t)
  {
    hide AppliedAll;
    SoundJoin(s.disk.journal, logged);
    assert Saved(t.disk) == Saved(s.disk) && DiskOk(env, t.disk);
    assert (s.disk.journal + logged)[|s.disk.journal|] == logged[0];
  }

  lemma RefusedRecovers(exact: bool, env: Env, s: Sys, t: Sys, op: Op)
    requires Inv(exact, env, s) && Operates(exact, env, s, t, op) && Unbuildable(env, s.mem, op)
    requires !s.disk.torn && Sound(s.disk.journal) == s.disk.journal
    ensures Recovers(exact, env, t)
  {
    hide Slots.Valid;
    var journal, logged := s.disk.journal, Step(env, s.mem, op).logged;
    var means := AppliedAll(env, Saved(s.disk), journal).value;
    RefusedLeaves(env, s.mem, op);
    SameIds(s.mem.colls);
    AlikeIds(exact, means, ViewsOf(s.mem.colls));
    hide Step, AppliedAll, Alike, AllGood;
    RefusedEntry(exact, env, s, t, logged, means);
  }

  lemma BuiltRecovers(exact: bool, env: Env, s: Sys, t: Sys, op: Op)
    requires SqrtLaw(env.sqrt) && Inv(exact, env, s) && Operates(exact, env, s, t, op) && !Unbuildable(env, s.mem, op)
    requires !s.disk.torn && Sound(s.disk.journal) == s.disk.journal
    ensures Recovers(exact, env, t)
  {
    hide Slots.Valid, SqrtLaw, AllGood, AppliedAll, Alike, Step, Sound, AllBuildable;
    var journal, logged := s.disk.journal, Step(env, s.mem, op).logged;
    StepRefines(exact, env, s.mem, op);
    AppliedBuildable(env, ViewsOf(s.mem.colls), logged);
    SoundJoin(journal, logged);
    assert Saved(t.disk) == Saved(s.disk);
    assert DiskOk(env, t.disk) && t.disk.journal == journal + logged;
    hide *;
    AppliedOnward(exact, env, Saved(s.disk), journal, ViewsOf(s.mem.colls), logged, ViewsOf(t.mem.colls));
    SoundRecovers(exact, env, t);
  }

  lemma SoundRecovers(exact: bool, env: Env, t: Sys)
    requires DiskOk(env, t.disk) && Sound(t.disk.journal) == t.disk.journal
    requires AppliedAll(env, Saved(t.disk), t.disk.journal).Some?
    requires Alike(exact, AppliedAll(env, Saved(t.disk), t.disk.journal).value, ViewsOf(t.mem.colls))
    ensures Recovers(exact, env, t)
  {
    hide AppliedAll, Alike, Sound;
  }

  /** Where the journal cannot be read to its end, or ends in a refused creation,
      appending to it changes nothing that a reader sees. */
  lemma StuckRecovers(exact: bool, env: Env, s: Sys, t: Sys, op: Op)
    requires Inv(exact, env, s) && Operates(exact, env, s, t, op)
    requires s.disk.torn || Sound(s.disk.journal) != s.disk.journal
    ensures Recovers(exact, env, t)
  {
    var journal, logged := s.disk.journal, Step(env, s.mem, op).logged;
    assert Saved(t.disk) == Saved(s.disk);
    hide Step, AppliedAll;
    if !s.disk.torn {
      SoundIs(journal);
      SoundIs(journal + logged);
      SoundJoin(journal, logged);
    }
  }

  lemma OperateKeepsInv(exact: bool, env: Env, s: Sys, t: Sys, op: Op)
    requires SqrtLaw(env.sqrt) && Inv(exact, env, s) && Operates(exact, env, s, t, op)
    ensures Inv(exact, env, t)
  {
    hide Slots.Valid;
    StepKeepsWf(env, s.mem, op);
    StepKeepsGood(env, s.disk.segments, s.mem, op);
    if exact {
      StepKeepsLasting(env, s.mem, op);
      LoggedLasts(env, s.mem, op);
    }
    if s.disk.torn || Sound(s.disk.journal) != s.disk.journal {
      StuckRecovers(exact, env, s, t, op);
    } else if Unbuildable(env, s.mem, op) {
      RefusedRecovers(exact, env, s, t, op);
    } else {
      BuiltRecovers(exact, env, s, t, op);
    }
    hide Step, Recovers;
  }

  lemma FailsOnward(env: Env, base: State, es: seq<Entry>, n: nat)
    requires n < |es| && ReplayedAll(env, base, es[..n]).Success?
    requires Replayed(env, ReplayedAll(env, base, es[..n]).value, es[n]).Failure?
    ensures ReplayedAll(env, base, es).Failure?
  {
    hide Replayed;
    assert es[..n + 1][..n] == es[..n] && es[..n + 1][n] == es[n];
    ReplayedJoin(env, base, es[..n + 1], es[n + 1..]);
    assert es[..n + 1] + es[n + 1..] == es;
  }

  /** A journal with a refused creation cannot be replayed. */
  lemma UnsoundFails(env: Env, base: State, es: seq<Entry>)
    requires Keyed(base.colls) && |Sound(es)| < |es|
    requires var means := AppliedAll(env, ViewsOf(base.colls), Sound(es));
      means.Some? && NameOf(ViewIds(means.value), es[|Sound(es)|].collId).None?
    ensures ReplayedAll(env, base, es).Failure?
  {
    hide Slots.Valid, AllBuildable, AppliedAll, ReplayedAll;
    SoundIs(es);
    ReplayRefines(env, base, Sound(es));
    SameIds(ReplayedAll(env, base, Sound(es)).value.colls);
    assert es[..|Sound(es)|] == Sound(es);
    FailsOnward(env, base, es, |Sound(es)|);
  }

  /** A journal that can be replayed has no refused creation, and means something. */
  lemma CutMeansSomething(exact: bool, env: Env, s: Sys, disk: Disk, base: State)
    requires Inv(exact, env, s) && |disk.journal| <= |s.disk.journal|
    requires disk == s.disk.(journal := s.disk.journal[..|disk.journal|], torn := disk.torn)
    requires base.colls == Loaded(env, s.disk) && ReplayedAll(env, base, disk.journal).Success?
    ensures Sound(disk.journal) == disk.journal && AppliedAll(env, Saved(disk), disk.journal).Some?
  {
    hide Slots.Valid;
    var journal, c := s.disk.journal, |disk.journal|;
    LoadedShows(env, s.disk);
    SoundPrefix(journal, c);
    SoundIs(journal);
    if c <= |Sound(journal)| {
      AppliedPrefix(env, Saved(s.disk), Sound(journal), c);
      assert Sound(journal)[..c] == journal[..c];
    } else {
      assert journal[..c][|Sound(journal)|] == journal[|Sound(journal)|];
      UnsoundFails(env, base, disk.journal);
    }
    assert Saved(disk) == Saved(s.disk);
  }

  lemma MeantRecovers(exact: bool, env: Env, t: Sys)
    requires DiskOk(env, t.disk) && Sound(t.disk.journal) == t.disk.journal
    requires AppliedAll(env, Saved(t.disk), t.disk.journal) == Some(ViewsOf(t.mem.colls))
    ensures Recovers(exact, env, t)
    ensures exact && AllLastingEntries(t.disk.journal) ==> LastingViews(ViewsOf(t.mem.colls))
  {
    hide AppliedAll, Sound;
    AlikeSelf(exact, ViewsOf(t.mem.colls));
    if exact && AllLastingEntries(t.disk.journal) {
      SavedLasting(env, t.disk);
      AppliedLasting(env, Saved(t.disk), t.disk.journal);
    }
  }

  /** Memory after opening is what the readable journal means over the file. */
  lemma ReopenMeans(exact: bool, env: Env, s: Sys, t: Sys, base: State)
    requires SqrtLaw(env.sqrt) && Inv(exact, env, s) && Reopens(env, s, t)
    requires LoadedFrom(env, t.disk, base) && Continues(env, base, t.disk, t.mem)
    ensures Sound(t.disk.journal) == t.disk.journal && Wf(t.mem) && AllGood(env, t.disk.segments, t.mem.colls)
    ensures AppliedAll(env, Saved(t.disk), t.disk.journal) == Some(ViewsOf(t.mem.colls))
  {
    hide Slots.Valid, Recovers;
    assert Loaded(env, t.disk) == Loaded(env, s.disk);
    CutMeansSomething(exact, env, s, t.disk, base);
    hide AppliedAll, Wf, AllGood, Sound;
    LoadedShows(env, t.disk);
    ReplayRefines(env, base, t.disk.journal);
    LoadedGood(env, t.disk);
    ReplayAllKeepsGood(env, t.disk.segments, base, t.disk.journal);
    ContinuedWf(env, base, t.disk, t.mem);
  }

  lemma ContinuedWf(env: Env, base: State, disk: Disk, mem: State)
    requires Continues(env, base, disk, mem) && Keyed(ReplayedAll(env, base, disk.journal).value.colls)
    ensures Wf(mem)
  {
    hide Slots.Valid, Keyed;
  }

  lemma ReopenKeepsInv(exact: bool, env: Env, s: Sys, t: Sys)
    requires SqrtLaw(env.sqrt) && Inv(exact, env, s) && Reopens(env, s, t)
    ensures Inv(exact, env, t) && Sound(t.disk.journal) == t.disk.journal
    ensures AppliedAll(env, Saved(t.disk), t.disk.journal) == Some(ViewsOf(t.mem.colls))
  {
    hide Slots.Valid, AppliedAll, Continues, Recovers, AllGood, Wf, Sound;
    var base: State :| LoadedFrom(env, t.disk, base) && Continues(env, base, t.disk, t.mem);
    ReopenMeans(exact, env, s, t, base);
    MeantRecovers(exact, env, t);
  }

  lemma SavedLasting(env: Env, disk: Disk)
    requires DiskOk(env, disk)
    ensures LastingViews(Saved(disk))
  {
    forall name | name in disk.toc ensures AllLasting(Saved(disk)[name].points) {
      assert EntryOk(env, disk.segments, name, disk.toc[name]);
    }
  }

  lemma LoadedCollGood(env: Env, segments: map<nat, Segment>, e: TocEntry)
    requires e.counts.refs in segments && Loadable(env, segments[e.counts.refs])
    ensures Good(env, segments, LoadedColl(env, e, segments[e.counts.refs]))
  {
    var seg := segments[e.counts.refs];
    LoadedDataFacts(env, seg, e.counts);
    DecodedIff(seg.points);
    assert Content(LoadedColl(env, e, seg)) == seg;
  }

  lemma LoadedGood(env: Env, disk: Disk)
    requires DiskOk(env, disk)
    ensures AllGood(env, disk.segments, Loaded(env, disk))
  {
    forall name | name in disk.toc ensures Good(env, disk.segments, LoadedAt(env, disk, name)) {
      assert EntryOk(env, disk.segments, name, disk.toc[name]);
      LoadedCollGood(env, disk.segments, disk.toc[name]);
    }
  }

  /** What sealing writes can be loaded, and is the collection itself exactly when no
      lane is present but empty. */
  lemma ContentLoadable(env: Env, c: Coll)
    requires Healthy(env, c)
    ensures Loadable(env, Content(c))
    ensures Content(c).points == PointsOf(c) <==> AllLasting(PointsOf(c))
  {
    var l := PointsOf(c);
    DecodedIff(l);
    Slots.PointsBelowMembers(c.data, c.config.dimension, |c.data.ids|);
    forall p | p in Decoded(l) ensures Stored(c.config, env.sqrt, p) && Lasting(p) {
      var i :| 0 <= i < |l| && Decoded(l)[i] == p;
      assert l[i] in l && Stored(c.config, env.sqrt, l[i]);
    }
  }

  /** Decoding twice is decoding once. */
  lemma DecodedTwice(l: seq<Point>)
    ensures Decoded(Decoded(l)) == Decoded(l)
  {
  }

  /** An entry names segments that decode to the collection, reused or fresh. */
  ghost predicate Holds(env: Env, segments: map<nat, Segment>, c: Coll, e: TocEntry) {
    && e.id == c.id && e.name == c.name && e.aliases == c.aliases
    && e.counts.refs in segments && segments[e.counts.refs] == Content(c)
    && Loadable(env, Content(c))
  }

  lemma SealedHolds(env: Env, reuse: bool, before: map<nat, Segment>, after: map<nat, Segment>, c: Coll, e: TocEntry)
    requires Healthy(env, c) && (reuse ==> Carries(before, c)) && SealedAs(reuse, before, after, c, e)
    requires forall r :: r in before ==> r in after && after[r] == before[r]
    ensures Holds(env, after, c, e)
  {
    ContentLoadable(env, c);
  }

  ghost predicate AllHold(env: Env, segments: map<nat, Segment>, colls: map<string, Coll>, toc: map<string, TocEntry>) {
    toc.Keys == colls.Keys && forall name :: name in colls ==> Holds(env, segments, colls[name], toc[name])
  }

  lemma SealingHolds(
    env: Env, reuse: bool, before: map<nat, Segment>, colls: map<string, Coll>, after: map<nat, Segment>,
    toc: map<string, TocEntry>)
    requires Sealing(reuse, before, colls, after, toc)
    requires forall name :: name in colls ==> Healthy(env, colls[name]) && (reuse ==> Carries(before, colls[name]))
    ensures AllHold(env, after, colls, toc)
  {
    forall name | name in colls ensures Holds(env, after, colls[name], toc[name]) {
      SealedHolds(env, reuse, before, after, colls[name], toc[name]);
    }
  }

  lemma HeldEntry(
    exact: bool, env: Env, segments: map<nat, Segment>, colls: map<string, Coll>, toc: map<string, TocEntry>,
    name: string)
    requires Keyed(colls) && AllHold(env, segments, colls, toc) && name in colls
    requires exact ==> AllLasting(PointsOf(colls[name]))
    ensures EntryOk(env, segments, name, toc[name])
    ensures Same(exact, EntryView(toc[name], segments[toc[name].counts.refs]), Shown(colls[name]))
    ensures EntryId(toc[name]) == IdOf(colls[name])
  {
    NameOfKey(colls, name);
    assert Holds(env, segments, colls[name], toc[name]);
    DecodedIff(PointsOf(colls[name]));
    DecodedTwice(PointsOf(colls[name]));
  }

  lemma HeldOk(env: Env, segments: map<nat, Segment>, colls: map<string, Coll>, toc: map<string, TocEntry>)
    requires Keyed(colls) && AllHold(env, segments, colls, toc)
    ensures DiskOk(env, Disk(segments, toc, [], false))
  {
    forall name | name in toc
      ensures EntryOk(env, segments, name, toc[name]) && EntryId(toc[name]) == IdOf(colls[name])
    {
      HeldEntry(false, env, segments, colls, toc, name);
    }
    EachIs<TocEntry, nat>(toc, EntryId, IdsOf(colls));
  }

  /** A file whose entries hold the collections recovers them, with no journal. */
  lemma HeldDisk(
    exact: bool, env: Env, segments: map<nat, Segment>, colls: map<string, Coll>, toc: map<string, TocEntry>)
    requires Keyed(colls) && AllHold(env, segments, colls, toc) && (exact ==> LastingViews(ViewsOf(colls)))
    ensures DiskOk(env, Disk(segments, toc, [], false))
    ensures Alike(exact, Saved(Disk(segments, toc, [], false)), ViewsOf(colls))
  {
    HeldOk(env, segments, colls, toc);
    var saved := Saved(Disk(segments, toc, [], false));
    forall name | name in colls ensures Same(exact, saved[name], ViewsOf(colls)[name]) {
      assert exact ==> AllLasting(ViewsOf(colls)[name].points);
      HeldEntry(exact, env, segments, colls, toc, name);
    }
  }

  lemma MarkedFacts(env: Env, segments: map<nat, Segment>, c: Coll, e: TocEntry)
    requires Healthy(env, c) && Holds(env, segments, c, e)
    ensures var m := MarkedSealed(c, e.counts);
      Good(env, segments, m) && Shown(m) == Shown(c) && IdOf(m) == IdOf(c) && OwnName(m) == OwnName(c)
  {
    Slots.SameValid(c.data, Sealed(c.data, e.counts), c.config.dimension);
  }

  lemma AllMarkedFacts(env: Env, segments: map<nat, Segment>, colls: map<string, Coll>, toc: map<string, TocEntry>)
    requires AllHold(env, segments, colls, toc) && forall name :: name in colls ==> Healthy(env, colls[name])
    ensures var m := AllMarked(colls, toc);
      AllGood(env, segments, m) && ViewsOf(m) == ViewsOf(colls) && IdsOf(m) == IdsOf(colls) &&
        Each(m, OwnName) == Each(colls, OwnName)
  {
    var m := AllMarked(colls, toc);
    forall name | name in colls
      ensures Good(env, segments, m[name]) && Shown(m[name]) == Shown(colls[name])
      ensures IdOf(m[name]) == IdOf(colls[name]) && OwnName(m[name]) == OwnName(colls[name])
    {
      MarkedFacts(env, segments, colls[name], toc[name]);
    }
    EachIs<Coll, View>(m, Shown, ViewsOf(colls));
    EachIs<Coll, nat>(m, IdOf, IdsOf(colls));
    EachIs<Coll, string>(m, OwnName, Each(colls, OwnName));
  }

  /** A file just written: no journal, and what it holds is what memory shows. */
  lemma CommittedRecovers(exact: bool, env: Env, t: Sys)
    requires DiskOk(env, t.disk) && Alike(exact, Saved(t.disk), ViewsOf(t.mem.colls)) && t.disk.journal == []
    ensures Recovers(exact, env, t)
  {
    hide Slots.Valid;
  }

  lemma CheckpointKeepsInv(exact: bool, env: Env, s: Sys, t: Sys)
    requires Inv(exact, env, s) && Checkpoints(s, t)
    ensures Inv(exact, env, t) && ViewsOf(t.mem.colls) == ViewsOf(s.mem.colls)
    ensures DiskOk(env, t.disk) && Alike(exact, Saved(t.disk), ViewsOf(s.mem.colls)) && t.disk.journal == []
  {
    if Commits(s, t) {
      var colls := s.mem.colls;
      forall name | name in colls ensures Healthy(env, colls[name]) && Carries(s.disk.segments, colls[name]) {
        assert Good(env, s.disk.segments, colls[name]);
      }
      SealingHolds(env, true, s.disk.segments, colls, t.disk.segments, t.disk.toc);
      HeldDisk(exact, env, t.disk.segments, colls, t.disk.toc);
      assert t.disk == Disk(t.disk.segments, t.disk.toc, [], false);
      AllMarkedFacts(env, t.disk.segments, colls, t.disk.toc);
      CommittedRecovers(exact, env, t);
    }
  }

  lemma CompactedFacts(env: Env, segments: map<nat, Segment>, c: Coll)
    requires Healthy(env, c)
    ensures var m := CompactedColl(c);
      Good(env, segments, m) && Shown(m) == Shown(c) && IdOf(m) == IdOf(c) && OwnName(m) == OwnName(c)
  {
    Slots.CompactRefines(c.data, c.config.dimension, c.config.metric);
    CompactedIsClean(c.data, c.config.dimension, c.config.metric);
  }

  lemma AllCompactedFacts(env: Env, segments: map<nat, Segment>, colls: map<string, Coll>)
    requires forall name :: name in colls ==> Healthy(env, colls[name])
    ensures var m := Each<Coll, Coll>(colls, CompactedColl);
      AllGood(env, segments, m) && ViewsOf(m) == ViewsOf(colls) && IdsOf(m) == IdsOf(colls) &&
        Each(m, OwnName) == Each(colls, OwnName)
  {
    var m := Each<Coll, Coll>(colls, CompactedColl);
    forall name | name in colls
      ensures Good(env, segments, m[name]) && Shown(m[name]) == Shown(colls[name])
      ensures IdOf(m[name]) == IdOf(colls[name]) && OwnName(m[name]) == OwnName(colls[name])
    {
      CompactedFacts(env, segments, colls[name]);
    }
    EachIs<Coll, View>(m, Shown, ViewsOf(colls));
    EachIs<Coll, nat>(m, IdOf, IdsOf(colls));
    EachIs<Coll, string>(m, OwnName, Each(colls, OwnName));
  }

  lemma VacuumKeepsInv(exact: bool, env: Env, s: Sys, t: Sys)
    requires Inv(exact, env, s) && Vacuums(s, t)
    ensures Inv(exact, env, t) && ViewsOf(t.mem.colls) == ViewsOf(s.mem.colls)
    ensures DiskOk(env, t.disk) && Alike(exact, Saved(t.disk), ViewsOf(s.mem.colls)) && t.disk.journal == []
  {
    var colls := s.mem.colls;
    forall name | name in colls ensures Healthy(env, colls[name]) {
      assert Good(env, s.disk.segments, colls[name]);
    }
    AllCompactedFacts(env, t.disk.segments, colls);
    forall name | name in t.mem.colls ensures Healthy(env, t.mem.colls[name]) {
      assert Good(env, t.disk.segments, t.mem.colls[name]);
    }
    SealingHolds(env, false, map[], t.mem.colls, t.disk.segments, t.disk.toc);
    HeldDisk(exact, env, t.disk.segments, t.mem.colls, t.disk.toc);
    assert t.disk == Disk(t.disk.segments, t.disk.toc, [], false);
    CommittedRecovers(exact, env, t);
  }

  // ----- every reachable state ----------------------------------------------

  /** A run from an empty file: operations that succeed or fail, checkpoints,
      vacuums, and crashes that lose any part of the journal. */
  ghost predicate IsRun(exact: bool, env: Env, run: seq<Sys>) {
    && |run| > 0 && run[0] == Sys(EMPTY_STATE, Disk(map[], map[], [], false))
    && forall i :: 0 <= i < |run| - 1 ==> SysStep(exact, env, run[i], run[i + 1])
  }

  lemma SysStepKeepsInv(exact: bool, env: Env, s: Sys, t: Sys)
    requires SqrtLaw(env.sqrt) && Inv(exact, env, s) && SysStep(exact, env, s, t)
    ensures Inv(exact, env, t)
  {
    if op :| Operates(exact, env, s, t, op) {
      OperateKeepsInv(exact, env, s, t, op);
    } else if Checkpoints(s, t) {
      CheckpointKeepsInv(exact, env, s, t);
    } else if Vacuums(s, t) {
      VacuumKeepsInv(exact, env, s, t);
    } else {
      ReopenKeepsInv(exact, env, s, t);
    }
  }

  lemma EmptyInv(exact: bool, env: Env)
    ensures Inv(exact, env, Sys(EMPTY_STATE, Disk(map[], map[], [], false)))
  {
  }

  lemma {:induction false} ReachableInv(exact: bool, env: Env, run: seq<Sys>, i: nat)
    requires SqrtLaw(env.sqrt) && IsRun(exact, env, run) && i < |run|
    ensures Inv(exact, env, run[i])
  {
    if i == 0 {
      EmptyInv(exact, env);
    } else {
      ReachableInv(exact, env, run, i - 1);
      hide Inv;
      SysStepKeepsInv(exact, env, run[i - 1], run[i]);
    }
  }

  /** In every reachable state, references offered for reuse decode to the
      collection's declared indexes and live points of this moment, and sparse lanes
      without entries are all that can differ. */
  lemma CarryForwardSound(exact: bool, env: Env, run: seq<Sys>, i: nat, name: string)
    requires SqrtLaw(env.sqrt) && IsRun(exact, env, run) && i < |run| && name in run[i].mem.colls
    ensures var c := run[i].mem.colls[name];
      && Carries(run[i].disk.segments, c)
      && (Content(c).points == PointsOf(c) <==> AllLasting(PointsOf(c)))
      && (exact ==> Content(c).points == PointsOf(c))
  {
    ReachableInv(exact, env, run, i);
    var c := run[i].mem.colls[name];
    assert Good(env, run[i].disk.segments, c);
    ContentLoadable(env, c);
    assert ViewsOf(run[i].mem.colls)[name] == Shown(c);
  }

  /** In every reachable state the file opens if and only if no creation was refused
      after it was journaled, since the last commit. */
  lemma OpensIff(exact: bool, env: Env, run: seq<Sys>, i: nat, base: State)
    requires SqrtLaw(env.sqrt) && IsRun(exact, env, run) && i < |run|
    requires DiskOk(env, run[i].disk) ==> base.colls == Loaded(env, run[i].disk)
    ensures DiskOk(env, run[i].disk)
    ensures ReplayedAll(env, base, run[i].disk.journal).Success? <==> AllBuildable(run[i].disk.journal)
  {
    var disk := run[i].disk;
    ReachableInv(exact, env, run, i);
    LoadedShows(env, disk);
    SoundIs(disk.journal);
    if AllBuildable(disk.journal) {
      ReplayRefines(env, base, disk.journal);
    } else {
      UnsoundFails(env, base, disk.journal);
    }
  }

  /** In every reachable state from which the file can be read, a crash loses no
      collection, no point and no index: the file shows each as memory did. Which
      collection an alias resolves to is another matter. */
  lemma NothingIsLost(exact: bool, env: Env, run: seq<Sys>, i: nat, base: State)
    requires SqrtLaw(env.sqrt) && IsRun(exact, env, run) && i < |run|
    requires AllBuildable(run[i].disk.journal) && !run[i].disk.torn
    requires DiskOk(env, run[i].disk) ==> base.colls == Loaded(env, run[i].disk)
    ensures DiskOk(env, run[i].disk)
    ensures var r := ReplayedAll(env, base, run[i].disk.journal);
      r.Success? && Reopened(exact, r.value, run[i].mem)
  {
    ReachableInv(exact, env, run, i);
    SoundIs(run[i].disk.journal);
    LoadedShows(env, run[i].disk);
    ReplayRefines(env, base, run[i].disk.journal);
  }

  /** Step `j` of the run opened the file and left an unfinished entry behind its
      journal, and since then there was neither a commit nor another reopening. */
  ghost predicate TornSince(exact: bool, env: Env, run: seq<Sys>, j: nat, i: nat) {
    && 0 < j <= i < |run| && Reopens(env, run[j - 1], run[j]) && run[j].disk.torn
    && forall k :: j <= k < i ==> Works(exact, env, run[k], run[k + 1])
  }

  /** After a crash inside an append the bytes of the unfinished entry stay where
      they are. Whatever is written from then on, up to the next commit, the file
      shows what it showed when it was opened: the next crash loses all of it. */
  lemma TornTailLosesWrites(exact: bool, env: Env, run: seq<Sys>, j: nat, i: nat, base: State)
    requires SqrtLaw(env.sqrt) && IsRun(exact, env, run) && TornSince(exact, env, run, j, i)
    requires DiskOk(env, run[i].disk) ==> base.colls == Loaded(env, run[i].disk)
    ensures DiskOk(env, run[i].disk)
    ensures var r := ReplayedAll(env, base, run[i].disk.journal);
      r.Success? && Keyed(r.value.colls) && ViewsOf(r.value.colls) == ViewsOf(run[j].mem.colls)
  {
    assert 0 < j <= i < |run| && Reopens(env, run[j - 1], run[j]) && run[j].disk.torn;
    assert forall k :: j <= k < i ==> Works(exact, env, run[k], run[k + 1]);
    hide *;
    ReachableInv(exact, env, run, j - 1);
    TornStays(exact, env, run, j, i);
    ReopenKeepsInv(exact, env, run[j - 1], run[j]);
    InvDisk(exact, env, run[j]);
    LoadedShows(env, run[i].disk);
    ReplayRefines(env, base, run[i].disk.journal);
  }

  lemma InvDisk(exact: bool, env: Env, s: Sys)
    requires Inv(exact, env, s)
    ensures DiskOk(env, s.disk)
  {
  }

  lemma TornStep(exact: bool, env: Env, s: Sys, t: Sys)
    requires Works(exact, env, s, t) && s.disk.torn
    ensures t.disk == s.disk
  {
    var op :| Operates(exact, env, s, t, op);
    hide Step;
  }

  lemma {:induction false} TornStays(exact: bool, env: Env, run: seq<Sys>, j: nat, i: nat)
    requires j <= i < |run| && run[j].disk.torn
    requires forall k :: j <= k < i ==> Works(exact, env, run[k], run[k + 1])
    ensures run[i].disk == run[j].disk
  {
    if j < i {
      TornStays(exact, env, run, j, i - 1);
      TornStep(exact, env, run[i - 1], run[i]);
    }
  }

  lemma StepToTorn(exact: bool, env: Env, s: Sys, t: Sys)
    requires SysStep(exact, env, s, t) && t.disk.torn
    ensures Reopens(env, s, t) || (s.disk.torn && Works(exact, env, s, t))
  {
    hide Step, Sealing, AllMarked, Opens;
  }

  /** A torn journal was left so by some reopening. */
  lemma {:induction false} TornBySome(exact: bool, env: Env, run: seq<Sys>, i: nat) returns (j: nat)
    requires IsRun(exact, env, run) && i < |run| && run[i].disk.torn
    ensures TornSince(exact, env, run, j, i)
  {
    hide Works, Reopens, SysStep;
    assert i > 0;
    assert SysStep(exact, env, run[i - 1], run[i - 1 + 1]);
    StepToTorn(exact, env, run[i - 1], run[i]);
    if Reopens(env, run[i - 1], run[i]) {
      j := i;
    } else {
      j := TornBySome(exact, env, run, i - 1);
    }
  }

  lemma ReopenedIs(exact: bool, base: State, shown: State, s: State)
    requires Keyed(base.colls) && ViewsOf(base.colls) == ViewsOf(shown.colls)
    ensures Reopened(exact, base, s) <==> Alike(exact, ViewsOf(shown.colls), ViewsOf(s.colls))
  {
    hide Keyed;
  }

  /** In every reachable state with a readable journal the file shows what memory
      shows if and only if nothing is torn, or all that was done since the reopening
      that left it torn changed nothing that shows. */
  lemma FileShowsIff(exact: bool, env: Env, run: seq<Sys>, i: nat, j: nat, base: State)
    requires SqrtLaw(env.sqrt) && IsRun(exact, env, run) && i < |run| && AllBuildable(run[i].disk.journal)
    requires run[i].disk.torn ==> TornSince(exact, env, run, j, i)
    requires DiskOk(env, run[i].disk) ==> base.colls == Loaded(env, run[i].disk)
    ensures DiskOk(env, run[i].disk)
    ensures var r := ReplayedAll(env, base, run[i].disk.journal);
      && r.Success?
      && (Reopened(exact, r.value, run[i].mem) <==>
            !run[i].disk.torn || Alike(exact, ViewsOf(run[j].mem.colls), ViewsOf(run[i].mem.colls)))
  {
    assert run[i].disk.torn ==> 0 < j <= i;
    hide *;
    if run[i].disk.torn {
      TornTailLosesWrites(exact, env, run, j, i, base);
      ReopenedIs(exact, ReplayedAll(env, base, run[i].disk.journal).value, run[j].mem, run[i].mem);
    } else {
      NothingIsLost(exact, env, run, i, base);
    }
  }

  const PLAIN := Config(1, DotProduct, 0, 0, 0, None)

  lemma OneCreated(env: Env, s: State, name: string)
    requires name in {"a", "b"} && name !in s.colls
    ensures var o := Step(env, s, Create(name, PLAIN, []));
      && o.answer.Success? && o.state.aliases == s.aliases && o.state.nextId == s.nextId + 1
      && o.state.colls == s.colls[name := NewColl(name, [], PLAIN, s.nextId, [])]
      && o.logged == [Entry(s.nextId, CreateColl(name, [], PLAIN))]
  {
    assert ByteLength("a") == 1 && ByteLength("b") == 1;
  }

  /** "a" has been created, and nothing committed. */
  ghost function HasA(torn: bool): Sys {
    Sys(State(map["a" := NewColl("a", [], PLAIN, 1, [])], map[], 2),
        Disk(map[], map[], [Entry(1, CreateColl("a", [], PLAIN))], torn))
  }

  /** And "b", behind an unfinished entry. */
  ghost function HasBoth(): Sys {
    var s := HasA(true);
    s.(mem := State(s.mem.colls["b" := NewColl("b", [], PLAIN, 2, [])], map[], 3))
  }

  lemma BothCreated(exact: bool, env: Env)
    ensures Operates(exact, env, Sys(EMPTY_STATE, Disk(map[], map[], [], false)), HasA(false), Create("a", PLAIN, []))
    ensures Operates(exact, env, HasA(true), HasBoth(), Create("b", PLAIN, []))
    ensures Step(env, HasA(true).mem, Create("b", PLAIN, [])).answer.Success?
  {
    hide Slots.Valid;
    OneCreated(env, EMPTY_STATE, "a");
    OneCreated(env, HasA(true).mem, "b");
    hide Step, NewColl;
  }

  lemma OpensWithA(env: Env)
    ensures Reopens(env, HasA(false), HasA(true))
  {
    hide Slots.Valid;
    var e, disk, mem := Entry(1, CreateColl("a", [], PLAIN)), HasA(true).disk, HasA(true).mem;
    assert DiskOk(env, disk) && LoadedFrom(env, disk, EMPTY_STATE);
    assert [e][..0] == [] && [e][..1] == [e] && ReplayedAll(env, EMPTY_STATE, []) == Success(EMPTY_STATE);
    assert Replayed(env, EMPTY_STATE, e).Success? && Replayed(env, EMPTY_STATE, e).value.colls == mem.colls;
    assert Continues(env, EMPTY_STATE, disk, mem);
  }

  /** One collection is created, the process dies in the middle of an append, and after
      the reopening another collection is created: the call succeeds, memory has the
      collection, the file does not. */
  lemma LostWriteExample(exact: bool, env: Env, base: State) returns (run: seq<Sys>)
    requires SqrtLaw(env.sqrt) && base.colls == map[]
    ensures |run| == 4 && IsRun(exact, env, run) && TornSince(exact, env, run, 2, 3)
    ensures var op := Create("b", PLAIN, []);
      && Operates(exact, env, run[2], run[3], op) && Step(env, run[2].mem, op).answer.Success?
      && "b" in run[3].mem.colls
    ensures run[3].disk.toc == map[]
    ensures var r := ReplayedAll(env, base, run[3].disk.journal); r.Success? && "b" !in r.value.colls
  {
    run := [Sys(EMPTY_STATE, Disk(map[], map[], [], false)), HasA(false), HasA(true), HasBoth()];
    BothCreated(exact, env);
    OpensWithA(env);
    LostFacts(env);
    hide *;
    FourSteps(exact, env, run, Create("a", PLAIN, []), Create("b", PLAIN, []));
    TornTailLosesWrites(exact, env, run, 2, 3, base);
    SameNames(ReplayedAll(env, base, run[3].disk.journal).value.colls, HasA(true).mem.colls);
  }

  lemma LostFacts(env: Env)
    ensures DiskOk(env, HasBoth().disk) && Loaded(env, HasBoth().disk) == map[] && HasBoth().disk.toc == map[]
    ensures HasA(true).disk.torn && "b" in HasBoth().mem.colls && "b" !in HasA(true).mem.colls
  {
    hide Slots.Valid, NewColl;
  }

  lemma SameNames(a: map<string, Coll>, b: map<string, Coll>)
    requires ViewsOf(a) == ViewsOf(b)
    ensures a.Keys == b.Keys
  {
    assert ViewsOf(a).Keys == a.Keys && ViewsOf(b).Keys == b.Keys;
  }

  lemma FourSteps(exact: bool, env: Env, run: seq<Sys>, first: Op, last: Op)
    requires |run| == 4 && run[0] == Sys(EMPTY_STATE, Disk(map[], map[], [], false))
    requires Operates(exact, env, run[0], run[1], first) && Reopens(env, run[1], run[2])
    requires run[2].disk.torn && Operates(exact, env, run[2], run[3], last)
    ensures IsRun(exact, env, run) && TornSince(exact, env, run, 2, 3)
  {
    hide Operates, Reopens, Checkpoints, Vacuums;
    assert Works(exact, env, run[0], run[1]) && Works(exact, env, run[2], run[3]);
  }

  // ----- the read-only tier -------------------------------------------------

  /** After a checkpoint, the references the next one reuses are the ones this one
      committed exactly when the collection has no base tier or had no write
      since it was loaded. */
  lemma ReuseAfterSealIff(before: map<nat, Segment>, after: map<nat, Segment>, c: Coll, e: TocEntry)
    requires SealedAs(true, before, after, c, e)
    requires c.data.base.Some? ==> c.data.base.value.committed.refs in before
    ensures Reusable(MarkedSealed(c, e.counts).data) == Some(e.counts) <==> c.data.base.None? || !c.data.dirty
  {
    if c.data.base.Some? && c.data.dirty {
      assert e.counts.refs !in before;
    }
  }

  /** Two checkpoints of a mapped collection: the second commits what was loaded,
      whatever was written in between. */
  lemma SecondCheckpointCommitsLoad(s: Sys, t: Sys, later: Sys, u: Sys, name: string)
    requires name in s.mem.colls && s.mem.colls[name].data.base.Some?
    requires s.mem.colls[name].data.base.value.committed.refs in s.disk.segments
    requires Commits(s, t) && Commits(later, u)
    requires name in later.mem.colls && later.mem.colls[name] == t.mem.colls[name]
    requires forall r :: r in t.disk.segments ==>
      r in later.disk.segments && later.disk.segments[r] == t.disk.segments[r]
    ensures var refs := u.disk.toc[name].counts.refs;
      && refs in u.disk.segments
      && u.disk.segments[refs] == s.disk.segments[s.mem.colls[name].data.base.value.committed.refs]
  {
    var c := s.mem.colls[name];
    assert SealedAs(true, s.disk.segments, t.disk.segments, c, t.disk.toc[name]);
    assert SealedAs(true, later.disk.segments, u.disk.segments, later.mem.colls[name], u.disk.toc[name]);
    assert Reusable(later.mem.colls[name].data) == Some(c.data.base.value.committed);
  }

  /** A mapped collection with one point, as loaded from segment 7. */
  function MappedData(): Slots.Data {
    Slots.Data([], ["a"], map["a" := 0], {}, [None], [None], None, map[],
               Some(Slots.Base([[1.0]], Slots.Committed(7, 1, 0), false)), None, false)
  }

  lemma MappedValid()
    ensures Slots.Valid(MappedData(), 1) && |Slots.Points(MappedData(), 1)| == 1
  {
    var d := MappedData();
    assert 0 * 1 == 0;
    assert Slots.Shape(d, 1);
    assert Slots.Live(d, 0);
    Slots.SlotsPartition(d, 1);
  }

  /** One upsert, one checkpoint: the references offered next lack the upsert. */
  lemma StaleBaseExample(counts: Slots.Committed)
    ensures var p := Point("b", [2.0], None, None);
      && Slots.Valid(MappedData(), 1)
      && var after := Sealed(Slots.Upserted(MappedData(), p), counts);
      && Slots.Valid(after, 1)
      && Reusable(after) == Reusable(MappedData()) == Some(Slots.Committed(7, 1, 0))
      && |Slots.Points(MappedData(), 1)| == 1 && |Slots.Points(after, 1)| == 2
  {
    var p := Point("b", [2.0], None, None);
    MappedValid();
    Slots.UpsertRefines(MappedData(), p, 1);
    var e := Slots.Upserted(MappedData(), p);
    Slots.SameValid(e, Sealed(e, counts), 1);
    Slots.SlotsPartition(Sealed(e, counts), 1);
  }
}
