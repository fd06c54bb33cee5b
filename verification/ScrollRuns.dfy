/** Whole scrolls over a collection that is written to between the pages (`scroll`
    in crates/veclite/src/collection.rs): what they return, what they skip and what
    they repeat. */
module ScrollRuns {
  import opened Core
  import opened Collections
  import opened Filters
  import opened PayloadIndex
  import opened Scroll
  import opened Search
  import opened Slots

  // ----- the newest slot of an id -------------------------------------------

  /** No later slot carries the id of a live one. */
  ghost predicate Newest(d: Data) {
    forall s, t :: 0 <= s < t < |d.ids| && Live(d, s) ==> d.ids[t] != d.ids[s]
  }

  /** Then a page starts after the last slot that carries the cursor's id. */
  lemma NewestStart(d: Data, dim: nat, cursor: string)
    requires Valid(d, dim) && Newest(d)
    ensures StartSlot(d, Some(cursor)) == PastLast(d.ids, cursor)
  {
    if cursor in d.idToSlot {
      assert Live(d, d.idToSlot[cursor]);
      PastLastIs(d.ids, cursor, d.idToSlot[cursor] + 1);
    }
  }

  /** A live slot that carries the cursor's id is that last slot. */
  lemma LiveIsLast(d: Data, dim: nat, cursor: string, m: nat)
    requires Valid(d, dim) && Newest(d) && IsLast(d.ids, cursor, m)
    ensures Live(d, m) <==> cursor in d.idToSlot
    ensures cursor in d.idToSlot ==> d.idToSlot[cursor] == m
  {
    if cursor in d.idToSlot {
      assert Live(d, d.idToSlot[cursor]);
    }
  }

  ghost predicate IsLast(ids: seq<string>, id: string, m: nat) {
    m < |ids| && ids[m] == id && forall j :: m < j < |ids| ==> ids[j] != id
  }

  /** A new store has the property, and a loaded base has it exactly when no point
      with an empty id comes before a dead slot, whose placeholder is empty too. */
  lemma EmptyNewest(metric: Metric, indexes: Indexes)
    ensures Newest(EmptyData(metric, indexes))
  {
  }

  lemma BaseNewestIff(d: Data, l: LoadedBase, dim: nat)
    requires ValidBase(l, dim) && Registered(d, l, |l.ids|)
    ensures Newest(d) <==> !exists s, t :: 0 <= s < t < |l.ids| && l.ids[s] == Some("") && l.ids[t].None?
  {
    RegisteredLive(d, l);
    if s, t :| 0 <= s < t < |l.ids| && l.ids[s] == Some("") && l.ids[t].None? {
      assert Live(d, s) && d.ids[s] == "" && d.ids[t] == "";
    } else {
      forall s, t | 0 <= s < t < |d.ids| && Live(d, s) ensures d.ids[t] != d.ids[s] {
        assert l.ids[s].Some? && l.ids[s] != l.ids[t];
      }
    }
  }

  // ----- stores with a memory -----------------------------------------------

  /** A store whose slots remember when they were written. */
  datatype Store = Store(data: Data, births: seq<nat>, next: nat)

  ghost predicate Aged(s: Store, dim: nat) {
    && Valid(s.data, dim) && |s.births| == |s.data.ids|
    && Increasing(s.births) && forall i :: 0 <= i < |s.births| ==> s.births[i] < s.next
  }

  /** What may happen to a collection between two pages. */
  datatype Write =
    | Upserts(point: Point)
    | Deletes(id: string)
    | Compacts(metric: Metric)
    | Reindexes(metric: Metric)
    | Declares(key: string, kind: IndexKind)

  ghost predicate Fits(w: Write, dim: nat) {
    w.Upserts? ==> |w.point.vector| == dim
  }

  ghost predicate AllFit(ws: seq<Write>, dim: nat) {
    forall i :: 0 <= i < |ws| ==> Fits(ws[i], dim)
  }

  /** The births of the live slots below `n`. */
  function LiveBirths(d: Data, births: seq<nat>, n: nat): seq<nat>
    requires n <= |d.ids| == |births|
  {
    if n == 0 then []
    else LiveBirths(d, births, n - 1) + if Live(d, n - 1) then [births[n - 1]] else []
  }

  function Written(s: Store, w: Write, dim: nat): Store
    requires Valid(s.data, dim) && |s.births| == |s.data.ids|
  {
    var d := s.data;
    match w
    case Upserts(p) => Store(Upserted(d, p), s.births + [s.next], s.next + 1)
    case Deletes(id) => s.(data := Deleted(d, id))
    case Compacts(metric) => s.(data := Compacted(d, dim, metric), births := LiveBirths(d, s.births, |d.ids|))
    case Reindexes(metric) => s.(data := Reindexed(d, dim, metric))
    case Declares(key, kind) => s.(data := IndexDeclared(d, key, kind))
  }

  /** Slot `i` holds the version written at `b`. */
  ghost predicate Holds(s: Store, dim: nat, i: nat, b: nat, p: Point)
    requires Shape(s.data, dim) && |s.births| == |s.data.ids|
  {
    i < |s.births| && s.births[i] == b && Live(s.data, i) && PointAt(s.data, dim, i) == p
  }

  ghost predicate Held(s: Store, dim: nat, b: nat, p: Point)
    requires Shape(s.data, dim) && |s.births| == |s.data.ids|
  {
    exists i: nat :: Holds(s, dim, i, b, p)
  }

  /** No version comes back or changes; new ones are younger. */
  ghost predicate Evolves(s: Store, t: Store, dim: nat)
    requires Shape(s.data, dim) && |s.births| == |s.data.ids|
    requires Shape(t.data, dim) && |t.births| == |t.data.ids|
  {
    s.next <= t.next && forall b: nat, p :: b < s.next && Held(t, dim, b, p) ==> Held(s, dim, b, p)
  }

  /** Slots are added, none comes back to life, and a live one keeps its point. */
  ghost predicate Keeps(d: Data, e: Data, dim: nat)
    requires Shape(d, dim) && Shape(e, dim)
  {
    && d.ids <= e.ids
    && forall i :: 0 <= i < |d.ids| && Live(e, i) ==> Live(d, i) && PointAt(e, dim, i) == PointAt(d, dim, i)
  }

  lemma KeptEvolves(s: Store, t: Store, dim: nat)
    requires Aged(s, dim) && Aged(t, dim) && Keeps(s.data, t.data, dim) && s.births <= t.births && s.next <= t.next
    requires forall j :: |s.births| <= j < |t.births| ==> t.births[j] >= s.next
    ensures Evolves(s, t, dim)
  {
    assert Shape(s.data, dim) && Shape(t.data, dim);
    hide Valid;
    forall b: nat, p | b < s.next && Held(t, dim, b, p) ensures Held(s, dim, b, p) {
      var i: nat :| Holds(t, dim, i, b, p);
      assert Holds(s, dim, i, b, p);
    }
  }

  lemma UpsertKeeps(d: Data, p: Point, dim: nat)
    requires Valid(d, dim) && |p.vector| == dim
    ensures var e := Upserted(d, p);
      && Valid(e, dim) && Keeps(d, e, dim) && e.ids == d.ids + [p.id] && Live(e, |d.ids|)
      && (Newest(d) ==> Newest(e))
      && forall i :: 0 <= i < |d.ids| ==> (Live(e, i) <==> Live(d, i) && d.ids[i] != p.id)
  {
    UpsertedFacts(d, p, dim);
    var e := Upserted(d, p);
    assert e.ids == d.ids + [p.id];
    hide Valid;
    if Newest(d) {
      forall s, t | 0 <= s < t < |e.ids| && Live(e, s) ensures e.ids[t] != e.ids[s] {
        assert Live(d, s) && d.ids[s] != p.id;
      }
    }
  }

  lemma DeleteKeeps(d: Data, id: string, dim: nat)
    requires Valid(d, dim)
    ensures var e := Deleted(d, id);
      && Valid(e, dim) && Keeps(d, e, dim) && e.ids == d.ids && (Newest(d) ==> Newest(e))
      && forall i :: 0 <= i < |d.ids| ==> (Live(e, i) <==> Live(d, i) && d.ids[i] != id)
  {
    DeletedFacts(d, id, dim);
    hide Valid;
    var e := Deleted(d, id);
    forall s, t | Newest(d) && 0 <= s < t < |e.ids| && Live(e, s) ensures e.ids[t] != e.ids[s] {
      assert Live(d, s);
    }
  }

  /** Rebuilding the graph and declaring an index leave the slots alone. */
  ghost predicate Untouched(d: Data, e: Data, dim: nat)
    requires Shape(d, dim) && Shape(e, dim)
  {
    Keeps(d, e, dim) && e.ids == d.ids && e.idToSlot == d.idToSlot
  }

  lemma RebuildKeeps(d: Data, metric: Metric, dim: nat)
    requires Valid(d, dim)
    ensures Valid(Reindexed(d, dim, metric), dim) && Untouched(d, Reindexed(d, dim, metric), dim)
  {
    ReindexRefines(d, dim, metric);
    hide Valid;
    var e := Reindexed(d, dim, metric);
    assert forall i :: 0 <= i < |d.ids| ==> Row(e, dim, i) == Row(d, dim, i);
  }

  lemma DeclareKeeps(d: Data, key: string, kind: IndexKind, dim: nat)
    requires Valid(d, dim)
    ensures Valid(IndexDeclared(d, key, kind), dim) && Untouched(d, IndexDeclared(d, key, kind), dim)
  {
    DeclareRefines(d, key, kind, dim);
    hide Valid;
    var e := IndexDeclared(d, key, kind);
    assert forall i :: 0 <= i < |d.ids| ==> Row(e, dim, i) == Row(d, dim, i);
  }

  lemma UntouchedNewest(d: Data, e: Data, dim: nat)
    requires Shape(d, dim) && Shape(e, dim) && Untouched(d, e, dim)
    ensures Newest(d) ==> Newest(e)
    ensures forall i :: Live(e, i) <==> Live(d, i)
  {
  }

  // ----- compaction ---------------------------------------------------------

  lemma {:induction false} AllLivePoints(d: Data, dim: nat, n: nat)
    requires Shape(d, dim) && n <= |d.ids| && forall i :: 0 <= i < n ==> Live(d, i)
    ensures |PointsBelow(d, dim, n)| == n
    ensures forall i :: 0 <= i < n ==> PointsBelow(d, dim, n)[i] == PointAt(d, dim, i)
  {
    if n > 0 {
      AllLivePoints(d, dim, n - 1);
    }
  }

  /** After a compaction the slots are the live points, and all of them are live. */
  lemma CompactedSlots(d: Data, dim: nat, metric: Metric)
    requires Valid(d, dim)
    ensures var e := Compacted(d, dim, metric);
      && Valid(e, dim) && Newest(e) && |e.ids| == |Points(d, dim)|
      && forall k :: 0 <= k < |e.ids| ==> Live(e, k) && PointAt(e, dim, k) == Points(d, dim)[k]
  {
    CompactRefines(d, dim, metric);
    var e := Compacted(d, dim, metric);
    hide Compacted;
    NoTombstones(e, dim);
    hide Valid;
    AllLivePoints(e, dim, |e.ids|);
  }

  lemma NoTombstones(e: Data, dim: nat)
    requires Valid(e, dim) && e.tombstones == {}
    ensures Shape(e, dim) && Newest(e) && forall k :: 0 <= k < |e.ids| ==> Live(e, k)
  {
    forall k | 0 <= k < |e.ids| ensures Live(e, k) {
      assert k !in e.tombstones;
    }
    hide Valid;
    forall s, t | 0 <= s < t < |e.ids| && Live(e, s) ensures e.ids[t] != e.ids[s] {
      assert Live(e, t) && e.idToSlot[e.ids[s]] == s && e.idToSlot[e.ids[t]] == t;
    }
  }

  /** Some slot below `n` holds the version. */
  ghost predicate HeldBelow(s: Store, dim: nat, n: nat, b: nat, p: Point)
    requires Shape(s.data, dim) && |s.births| == |s.data.ids|
  {
    exists i: nat :: i < n && Holds(s, dim, i, b, p)
  }

  ghost predicate Lists(births: seq<nat>, points: seq<Point>, b: nat, p: Point)
    requires |births| == |points|
  {
    exists k: nat :: k < |births| && births[k] == b && points[k] == p
  }

  /** Two lists name the versions below slot `n`, in the order of their births. */
  ghost predicate Pairs(s: Store, dim: nat, births: seq<nat>, points: seq<Point>, n: nat)
    requires Shape(s.data, dim) && |s.births| == |s.data.ids|
  {
    && |births| == |points| && Increasing(births)
    && forall b: nat, p :: Lists(births, points, b, p) <==> HeldBelow(s, dim, n, b, p)
  }

  lemma NothingPairs(s: Store, dim: nat)
    requires Shape(s.data, dim) && |s.births| == |s.data.ids|
    ensures Pairs(s, dim, [], [], 0)
  {
  }

  lemma {:induction false} LiveBirthsPair(s: Store, dim: nat, n: nat)
    requires Shape(s.data, dim) && |s.births| == |s.data.ids| && Increasing(s.births) && n <= |s.births|
    ensures Pairs(s, dim, LiveBirths(s.data, s.births, n), PointsBelow(s.data, dim, n), n)
  {
    hide Holds, PointAt;
    if n == 0 {
      NothingPairs(s, dim);
    } else {
      hide Pairs, Increasing;
      var births, points := LiveBirths(s.data, s.births, n - 1), PointsBelow(s.data, dim, n - 1);
      LiveBirthsPair(s, dim, n - 1);
      PairsNext(s, dim, births, points, n - 1);
      assert births + [] == births && points + [] == points;
    }
  }

  lemma HeldBelowNext(s: Store, dim: nat, n: nat, b: nat, p: Point)
    requires Shape(s.data, dim) && |s.births| == |s.data.ids|
    ensures HeldBelow(s, dim, n + 1, b, p) <==> HeldBelow(s, dim, n, b, p) || Holds(s, dim, n, b, p)
  {
    hide Shape, Holds;
    if HeldBelow(s, dim, n, b, p) {
      var i: nat :| i < n && Holds(s, dim, i, b, p);
      assert i < n + 1;
    }
  }

  lemma ListsNext(births: seq<nat>, points: seq<Point>, c: nat, q: Point, b: nat, p: Point)
    requires |births| == |points|
    ensures Lists(births + [c], points + [q], b, p) <==> Lists(births, points, b, p) || (b == c && p == q)
  {
    var cs, qs := births + [c], points + [q];
    if Lists(births, points, b, p) {
      var k: nat :| k < |births| && births[k] == b && points[k] == p;
      assert cs[k] == b && qs[k] == p;
    }
    if b == c && p == q {
      assert cs[|births|] == b && qs[|births|] == p;
    }
  }

  lemma PairsNext(s: Store, dim: nat, births: seq<nat>, points: seq<Point>, n: nat)
    requires Shape(s.data, dim) && |s.births| == |s.data.ids| && Increasing(s.births) && n < |s.births|
    requires Pairs(s, dim, births, points, n)
    ensures !Live(s.data, n) ==> Pairs(s, dim, births, points, n + 1)
    ensures Live(s.data, n) ==> Pairs(s, dim, births + [s.births[n]], points + [PointAt(s.data, dim, n)], n + 1)
  {
    var c, q := s.births[n], PointAt(s.data, dim, n);
    forall b: nat, p ensures HeldBelow(s, dim, n + 1, b, p) <==>
      HeldBelow(s, dim, n, b, p) || (Live(s.data, n) && b == c && p == q)
    {
      HeldBelowNext(s, dim, n, b, p);
    }
    forall k | 0 <= k < |births| ensures births[k] < c {
      assert Lists(births, points, births[k], points[k]);
      var i: nat :| i < n && Holds(s, dim, i, births[k], points[k]);
    }
    hide Shape, HeldBelow, PointAt, Holds;
    forall b: nat, p ensures Lists(births + [c], points + [q], b, p) <==>
      Lists(births, points, b, p) || (b == c && p == q)
    {
      ListsNext(births, points, c, q, b, p);
    }
    hide Lists;
    if Live(s.data, n) {
      assert Increasing(births + [c]);
      forall b: nat, p ensures Lists(births + [c], points + [q], b, p) <==> HeldBelow(s, dim, n + 1, b, p) {
      }
    }
  }

  /** Both stores hold the same versions, the second in live slots only. */
  ghost predicate Renumbered(s: Store, t: Store, dim: nat)
    requires Shape(s.data, dim) && |s.births| == |s.data.ids|
    requires Shape(t.data, dim) && |t.births| == |t.data.ids|
  {
    && (forall k :: 0 <= k < |t.births| ==> Live(t.data, k))
    && (forall b: nat, p :: Held(t, dim, b, p) <==> Held(s, dim, b, p))
  }

  /** A compaction keeps every live version and forgets the rest. */
  lemma CompactionFacts(s: Store, dim: nat, metric: Metric)
    requires Aged(s, dim)
    ensures var t := Written(s, Compacts(metric), dim);
      Aged(t, dim) && Newest(t.data) && Evolves(s, t, dim) && Renumbered(s, t, dim)
  {
    var t := Written(s, Compacts(metric), dim);
    CompactedSlots(s.data, dim, metric);
    LiveBirthsPair(s, dim, |s.births|);
    assert Shape(s.data, dim) && Shape(t.data, dim);
    hide Valid, Compacted, LiveBirths, Shape, Holds, Newest;
    PairedRenumbers(s, t, dim, Points(s.data, dim));
  }

  lemma PairedRenumbers(s: Store, t: Store, dim: nat, points: seq<Point>)
    requires Shape(s.data, dim) && |s.births| == |s.data.ids|
    requires Shape(t.data, dim) && |t.data.ids| == |points| && s.next == t.next
    requires Pairs(s, dim, t.births, points, |s.births|)
    requires forall i :: 0 <= i < |s.births| ==> s.births[i] < s.next
    requires forall k :: 0 <= k < |points| ==> Live(t.data, k) && PointAt(t.data, dim, k) == points[k]
    ensures Renumbered(s, t, dim) && Evolves(s, t, dim)
    ensures forall k :: 0 <= k < |t.births| ==> t.births[k] < t.next
  {
    hide Shape, PointAt;
    forall b: nat, p ensures Held(t, dim, b, p) <==> Lists(t.births, points, b, p) {
      if Held(t, dim, b, p) {
        var k: nat :| Holds(t, dim, k, b, p);
        assert t.births[k] == b && points[k] == p;
      }
      if Lists(t.births, points, b, p) {
        var k: nat :| k < |points| && t.births[k] == b && points[k] == p;
        assert Holds(t, dim, k, b, p);
      }
    }
    forall b: nat, p ensures Held(s, dim, b, p) <==> HeldBelow(s, dim, |s.births|, b, p) {
      if Held(s, dim, b, p) {
        var i: nat :| Holds(s, dim, i, b, p);
        assert i < |s.births|;
      }
    }
    forall k | 0 <= k < |t.births| ensures t.births[k] < t.next {
      assert Lists(t.births, points, t.births[k], points[k]);
      var i: nat :| i < |s.births| && Holds(s, dim, i, t.births[k], points[k]);
    }
  }

  // ----- every write --------------------------------------------------------

  lemma SlotsUntouched(s: Store, e: Data, dim: nat)
    requires Aged(s, dim) && Valid(e, dim) && Untouched(s.data, e, dim)
    ensures Aged(s.(data := e), dim) && Evolves(s, s.(data := e), dim) && (Newest(s.data) ==> Newest(e))
  {
    assert Shape(s.data, dim) && Shape(e, dim);
    hide Valid;
    UntouchedNewest(s.data, e, dim);
    KeptEvolves(s, s.(data := e), dim);
  }

  lemma WrittenFacts(s: Store, w: Write, dim: nat)
    requires Aged(s, dim) && Fits(w, dim)
    ensures var t := Written(s, w, dim);
      Aged(t, dim) && Evolves(s, t, dim) && (Newest(s.data) ==> Newest(t.data))
  {
    hide Valid;
    var t := Written(s, w, dim);
    match w
    case Upserts(p) =>
      UpsertKeeps(s.data, p, dim);
      KeptEvolves(s, t, dim);
    case Deletes(id) =>
      DeleteKeeps(s.data, id, dim);
      KeptEvolves(s, t, dim);
    case Compacts(metric) => CompactionFacts(s, dim, metric);
    case Reindexes(metric) =>
      RebuildKeeps(s.data, metric, dim);
      SlotsUntouched(s, t.data, dim);
    case Declares(key, kind) =>
      DeclareKeeps(s.data, key, kind, dim);
      SlotsUntouched(s, t.data, dim);
  }

  function WrittenAll(s: Store, ws: seq<Write>, dim: nat): (t: Store)
    requires Aged(s, dim) && AllFit(ws, dim)
    ensures Aged(t, dim)
  {
    if ws == [] then s
    else
      var before := WrittenAll(s, ws[..|ws| - 1], dim);
      WrittenFacts(before, ws[|ws| - 1], dim);
      Written(before, ws[|ws| - 1], dim)
  }

  lemma EvolvesTrans(a: Store, b: Store, c: Store, dim: nat)
    requires Aged(a, dim) && Aged(b, dim) && Aged(c, dim) && Evolves(a, b, dim) && Evolves(b, c, dim)
    ensures Evolves(a, c, dim)
  {
    hide Valid, Held;
  }

  lemma {:induction false} WritesEvolve(s: Store, ws: seq<Write>, dim: nat)
    requires Aged(s, dim) && AllFit(ws, dim)
    ensures var t := WrittenAll(s, ws, dim);
      Evolves(s, t, dim) && (Newest(s.data) ==> Newest(t.data))
  {
    hide Valid, Held;
    if ws != [] {
      var front, w := ws[..|ws| - 1], ws[|ws| - 1];
      WritesEvolve(s, front, dim);
      WrittenFacts(WrittenAll(s, front, dim), w, dim);
      EvolvesTrans(s, WrittenAll(s, front, dim), WrittenAll(s, ws, dim), dim);
    }
  }

  /** In every store that begins empty, or from a base without empty ids, no later
      slot carries the id of a live one, whatever was written since. */
  lemma StoresAreNewest(s: Store, ws: seq<Write>, dim: nat, l: LoadedBase)
    requires Aged(s, dim) && AllFit(ws, dim)
    requires s.data.ids == [] ||
      (ValidBase(l, dim) && Registered(s.data, l, |l.ids|) && forall i :: 0 <= i < |l.ids| ==> l.ids[i] != Some(""))
    ensures Newest(WrittenAll(s, ws, dim).data)
  {
    hide Valid;
    if s.data.ids != [] {
      BaseNewestIff(s.data, l, dim);
    }
    WritesEvolve(s, ws, dim);
  }

  // ----- the cursor between two pages ---------------------------------------

  /** Nobody upserts the cursor's id. */
  ghost predicate Spares(ws: seq<Write>, cursor: string) {
    forall i :: 0 <= i < |ws| && ws[i].Upserts? ==> ws[i].point.id != cursor
  }

  ghost predicate Compactless(ws: seq<Write>) {
    forall i :: 0 <= i < |ws| ==> !ws[i].Compacts?
  }

  /** What becomes of the slot a scroll resumes after: it keeps its place, its id
      moves to a new slot, or a compaction drops it dead. */
  datatype Fate = Stays(live: bool) | Moves(live: bool) | Lost

  function FateAfter(fate: Fate, w: Write, cursor: string): Fate {
    match w
    case Upserts(p) => if p.id == cursor then Moves(true) else fate
    case Deletes(id) => if id == cursor && !fate.Lost? then fate.(live := false) else fate
    case Compacts(_) => if fate.Lost? || fate.live then fate else Lost
    case _ => fate
  }

  function FateOf(ws: seq<Write>, cursor: string): Fate {
    if ws == [] then Stays(true) else FateAfter(FateOf(ws[..|ws| - 1], cursor), ws[|ws| - 1], cursor)
  }

  lemma SparesSnoc(ws: seq<Write>, w: Write, cursor: string)
    ensures Spares(ws + [w], cursor) <==> Spares(ws, cursor) && !(w.Upserts? && w.point.id == cursor)
  {
    var all := ws + [w];
    assert forall i :: 0 <= i < |ws| ==> all[i] == ws[i];
    assert all[|ws|] == w;
    if !Spares(ws, cursor) {
      var i :| 0 <= i < |ws| && ws[i].Upserts? && ws[i].point.id == cursor;
      assert all[i] == ws[i];
    }
  }

  /** A cursor that is not lost stays if and only if nobody upserts it, and without
      a compaction it is never lost. */
  lemma {:induction false} FateIff(ws: seq<Write>, cursor: string)
    ensures FateOf(ws, cursor).Stays? ==> Spares(ws, cursor)
    ensures FateOf(ws, cursor).Moves? ==> !Spares(ws, cursor)
    ensures Compactless(ws) ==> !FateOf(ws, cursor).Lost?
  {
    if ws != [] {
      var front, w := ws[..|ws| - 1], ws[|ws| - 1];
      FateIff(front, cursor);
      assert ws == front + [w];
      assert Compactless(ws) ==> Compactless(front) && !w.Compacts?;
      SparesSnoc(front, w, cursor);
      hide Spares, Compactless;
    }
  }

  /** The last slot with the cursor's id, its birth, and whether it is live. */
  ghost predicate CursorAt(s: Store, cursor: string, m: nat, b: nat, live: bool) {
    IsLast(s.data.ids, cursor, m) && m < |s.births| && s.births[m] == b && (live <==> Live(s.data, m))
  }

  ghost predicate Placed(s: Store, cursor: string, b: nat, live: bool) {
    exists m: nat :: CursorAt(s, cursor, m, b, live)
  }

  lemma LastSnoc(ids: seq<string>, id: string, cursor: string, m: nat)
    ensures id == cursor ==> IsLast(ids + [id], cursor, |ids|)
    ensures id != cursor && IsLast(ids, cursor, m) ==> IsLast(ids + [id], cursor, m)
    ensures id != cursor && cursor !in ids ==> cursor !in ids + [id]
  {
  }

  /** What an upsert does to ids, births and liveness. */
  lemma UpsertedSlots(s: Store, p: Point, dim: nat)
    requires Aged(s, dim) && |p.vector| == dim
    ensures var t := Written(s, Upserts(p), dim);
      && |s.births| == |s.data.ids|
      && t.data.ids == s.data.ids + [p.id] && t.births == s.births + [s.next] && Live(t.data, |s.data.ids|)
      && forall i :: 0 <= i < |s.data.ids| ==> (Live(t.data, i) <==> Live(s.data, i) && s.data.ids[i] != p.id)
  {
    hide Valid, Upserted;
    assert Valid(s.data, dim);
    UpsertKeeps(s.data, p, dim);
  }

  lemma UpsertPlaces(s: Store, p: Point, dim: nat, cursor: string, b: nat, live: bool)
    requires Aged(s, dim) && |p.vector| == dim
    ensures var t := Written(s, Upserts(p), dim);
      && (p.id == cursor ==> Placed(t, cursor, s.next, true))
      && (p.id != cursor && Placed(s, cursor, b, live) ==> Placed(t, cursor, b, live))
      && (p.id != cursor && cursor !in s.data.ids ==> cursor !in t.data.ids)
  {
    var t := Written(s, Upserts(p), dim);
    UpsertedSlots(s, p, dim);
    LastSnoc(s.data.ids, p.id, cursor, 0);
    hide Written, Aged, Live, IsLast;
    if p.id == cursor {
      assert CursorAt(t, cursor, |s.data.ids|, s.next, true);
    } else if Placed(s, cursor, b, live) {
      var m: nat :| CursorAt(s, cursor, m, b, live);
      LastSnoc(s.data.ids, p.id, cursor, m);
      LastInside(s.data.ids, cursor, m);
      assert CursorAt(t, cursor, m, b, live);
    }
  }

  lemma LastInside(ids: seq<string>, id: string, m: nat)
    requires IsLast(ids, id, m)
    ensures m < |ids| && ids[m] == id
  {
  }

  lemma DeletePlaces(s: Store, id: string, dim: nat, cursor: string, b: nat, live: bool)
    requires Aged(s, dim) && Placed(s, cursor, b, live)
    ensures Placed(Written(s, Deletes(id), dim), cursor, b, live && id != cursor)
  {
    var t := Written(s, Deletes(id), dim);
    DeleteKeeps(s.data, id, dim);
    hide Valid, Deleted, Newest, Keeps;
    var m: nat :| CursorAt(s, cursor, m, b, live);
    assert CursorAt(t, cursor, m, b, live && id != cursor);
  }

  lemma SameIdsSamePlaces(s: Store, t: Store, dim: nat, cursor: string, b: nat, live: bool)
    requires Shape(s.data, dim) && Shape(t.data, dim) && Untouched(s.data, t.data, dim) && s.births == t.births
    ensures Placed(s, cursor, b, live) ==> Placed(t, cursor, b, live)
  {
    UntouchedNewest(s.data, t.data, dim);
    hide Shape, Untouched;
    if Placed(s, cursor, b, live) {
      var m: nat :| CursorAt(s, cursor, m, b, live);
      assert IsLast(t.data.ids, cursor, m) by {
        SameIdsIn(s.data, t.data, dim);
      }
      assert CursorAt(t, cursor, m, b, live);
    }
  }

  lemma SameIdsIn(d: Data, e: Data, dim: nat)
    requires Shape(d, dim) && Shape(e, dim) && Untouched(d, e, dim)
    ensures d.ids == e.ids
  {
  }

  /** A compaction drops a dead cursor and keeps a live one. */
  lemma CompactionPlaces(s: Store, metric: Metric, dim: nat, cursor: string, b: nat, live: bool)
    requires Aged(s, dim) && Newest(s.data)
    ensures var t := Written(s, Compacts(metric), dim);
      && (live && Placed(s, cursor, b, live) ==> Placed(t, cursor, b, live))
      && (!live && Placed(s, cursor, b, live) ==> cursor !in t.data.ids)
      && (cursor !in s.data.ids ==> cursor !in t.data.ids)
  {
    var t := Written(s, Compacts(metric), dim);
    CompactionFacts(s, dim, metric);
    if Placed(s, cursor, b, live) {
      var m: nat :| CursorAt(s, cursor, m, b, live);
      LiveIsLast(s.data, dim, cursor, m);
    }
    assert Valid(s.data, dim) && Valid(t.data, dim);
    LiveIds(s, dim);
    hide Valid, Compacted, LiveBirths, Aged;
    if Placed(s, cursor, b, live) && live {
      var m: nat :| CursorAt(s, cursor, m, b, live);
      LiveStaysPlaced(s, t, dim, cursor, m, b);
    }
    if cursor in t.data.ids {
      var k: nat :| k < |t.data.ids| && t.data.ids[k] == cursor;
      assert Holds(t, dim, k, t.births[k], PointAt(t.data, dim, k));
      assert Held(t, dim, t.births[k], PointAt(t.data, dim, k));
      var i: nat :| Holds(s, dim, i, t.births[k], PointAt(t.data, dim, k));
      assert s.data.ids[i] == cursor && cursor in s.data.ids;
      assert cursor in s.data.idToSlot;
    }
  }

  lemma LiveIds(s: Store, dim: nat)
    requires Valid(s.data, dim)
    ensures Shape(s.data, dim) && forall i: nat :: Live(s.data, i) ==> s.data.ids[i] in s.data.idToSlot
  {
  }

  lemma LiveStaysPlaced(s: Store, t: Store, dim: nat, cursor: string, m: nat, b: nat)
    requires Shape(s.data, dim) && |s.births| == |s.data.ids| && CursorAt(s, cursor, m, b, true)
    requires Valid(t.data, dim) && |t.births| == |t.data.ids| && Newest(t.data) && Renumbered(s, t, dim)
    ensures Placed(t, cursor, b, true)
  {
    assert Shape(t.data, dim);
    hide Valid, Shape;
    assert Holds(s, dim, m, b, PointAt(s.data, dim, m));
    assert Held(s, dim, b, PointAt(s.data, dim, m));
    var k: nat :| Holds(t, dim, k, b, PointAt(s.data, dim, m));
    assert t.data.ids[k] == cursor && Live(t.data, k);
    assert IsLast(t.data.ids, cursor, k);
    assert CursorAt(t, cursor, k, b, true);
  }

  /** What a fate says about a later store: `b` is the birth of the slot resumed
      after, `next` the first birth of the writes in between. */
  ghost predicate Fated(fate: Fate, t: Store, cursor: string, b: nat, next: nat) {
    match fate
    case Stays(live) => Placed(t, cursor, b, live)
    case Moves(live) => exists c: nat :: next <= c && Placed(t, cursor, c, live)
    case Lost => cursor !in t.data.ids
  }

  lemma FateStep(fate: Fate, s: Store, w: Write, dim: nat, cursor: string, b: nat, next: nat)
    requires Aged(s, dim) && Newest(s.data) && Fits(w, dim) && next <= s.next && Fated(fate, s, cursor, b, next)
    ensures Fated(FateAfter(fate, w, cursor), Written(s, w, dim), cursor, b, next)
  {
    var c := b;
    if fate.Moves? {
      c :| next <= c && Placed(s, cursor, c, fate.live);
    }
    var live := !fate.Lost? && fate.live;
    assert Shape(s.data, dim);
    hide Valid, Placed, Newest, Compacted;
    match w
    case Upserts(p) => UpsertPlaces(s, p, dim, cursor, c, live);
    case Deletes(id) =>
      if fate.Lost? {
        DeleteKeeps(s.data, id, dim);
      } else {
        DeletePlaces(s, id, dim, cursor, c, live);
      }
    case Compacts(metric) => CompactionPlaces(s, metric, dim, cursor, c, live);
    case Reindexes(metric) =>
      RebuildKeeps(s.data, metric, dim);
      SameIdsSamePlaces(s, Written(s, w, dim), dim, cursor, c, live);
    case Declares(key, kind) =>
      DeclareKeeps(s.data, key, kind, dim);
      SameIdsSamePlaces(s, Written(s, w, dim), dim, cursor, c, live);
  }

  lemma {:induction false} FateFollows(s: Store, ws: seq<Write>, dim: nat, cursor: string, k: nat)
    requires Aged(s, dim) && Newest(s.data) && AllFit(ws, dim)
    requires k < |s.data.ids| && s.data.ids[k] == cursor && Live(s.data, k)
    ensures Fated(FateOf(ws, cursor), WrittenAll(s, ws, dim), cursor, s.births[k], s.next)
  {
    if ws == [] {
      assert CursorAt(s, cursor, k, s.births[k], true);
    } else {
      var front := ws[..|ws| - 1];
      FateFollows(s, front, dim, cursor, k);
      WritesEvolve(s, front, dim);
      hide Fated, Valid, Held;
      FateStep(FateOf(front, cursor), WrittenAll(s, front, dim), ws[|ws| - 1], dim, cursor, s.births[k], s.next);
    }
  }

  lemma PlacedStart(s: Store, dim: nat, cursor: string, b: nat, live: bool)
    requires Aged(s, dim) && Newest(s.data) && Placed(s, cursor, b, live)
    ensures var start := StartSlot(s.data, Some(cursor)); 0 < start <= |s.births| && s.births[start - 1] == b
  {
    NewestStart(s.data, dim, cursor);
    var m: nat :| CursorAt(s, cursor, m, b, live);
    PastLastIs(s.data.ids, cursor, m + 1);
  }

  ghost predicate StartsAt(fate: Fate, births: seq<nat>, start: nat, b: nat, next: nat) {
    && start <= |births|
    && match fate
       case Stays(_) => start > 0 && births[start - 1] == b
       case Moves(_) => start > 0 && births[start - 1] >= next
       case Lost => start == 0
  }

  lemma FatedStart(fate: Fate, t: Store, dim: nat, cursor: string, b: nat, next: nat)
    requires Aged(t, dim) && Newest(t.data) && Fated(fate, t, cursor, b, next)
    ensures StartsAt(fate, t.births, StartSlot(t.data, Some(cursor)), b, next)
  {
    hide Placed, Newest, Valid, Increasing;
    match fate
    case Stays(live) => PlacedStart(t, dim, cursor, b, live);
    case Moves(live) =>
      var c: nat :| next <= c && Placed(t, cursor, c, live);
      PlacedStart(t, dim, cursor, c, live);
    case Lost =>
      assert Valid(t.data, dim);
      NewestStart(t.data, dim, cursor);
  }

  /** Where the next page starts: right after the slot resumed after if the cursor
      stays, after every older slot if it moves, and from the beginning if it is
      lost. */
  lemma NextStart(s: Store, ws: seq<Write>, dim: nat, cursor: string, k: nat)
    requires Aged(s, dim) && Newest(s.data) && AllFit(ws, dim)
    requires k < |s.data.ids| && s.data.ids[k] == cursor && Live(s.data, k)
    ensures var t := WrittenAll(s, ws, dim);
      StartsAt(FateOf(ws, cursor), t.births, StartSlot(t.data, Some(cursor)), s.births[k], s.next)
  {
    hide Valid, Held, Placed, Newest, Evolves;
    FateFollows(s, ws, dim, cursor, k);
    WritesEvolve(s, ws, dim);
    FatedStart(FateOf(ws, cursor), WrittenAll(s, ws, dim), dim, cursor, s.births[k], s.next);
  }

  // ----- without compactions ------------------------------------------------

  /** The ids that upserts append. */
  function NewIds(ws: seq<Write>): seq<string> {
    if ws == [] then []
    else NewIds(ws[..|ws| - 1]) + if ws[|ws| - 1].Upserts? then [ws[|ws| - 1].point.id] else []
  }

  lemma {:induction false} NewIdsSpare(ws: seq<Write>, cursor: string)
    ensures cursor in NewIds(ws) <==> !Spares(ws, cursor)
  {
    if ws != [] {
      var front, w := ws[..|ws| - 1], ws[|ws| - 1];
      NewIdsSpare(front, cursor);
      assert ws == front + [w];
      SparesSnoc(front, w, cursor);
      hide Spares;
    }
  }

  lemma {:induction false} IdsGrow(s: Store, ws: seq<Write>, dim: nat)
    requires Aged(s, dim) && AllFit(ws, dim) && Compactless(ws)
    ensures WrittenAll(s, ws, dim).data.ids == s.data.ids + NewIds(ws)
  {
    if ws == [] {
      assert s.data.ids + [] == s.data.ids;
    } else {
      var front, w := ws[..|ws| - 1], ws[|ws| - 1];
      assert Compactless(front);
      IdsGrow(s, front, dim);
      var before := WrittenAll(s, front, dim);
      assert Valid(before.data, dim);
      OneGrows(before, w, dim);
      hide Valid, Written, Compactless, Aged;
      assert NewIds(ws) == NewIds(front) + NewIds([w]) by {
        assert [w][..0] == [] && [] + NewIds([w]) == NewIds([w]);
      }
    }
  }

  lemma OneGrows(before: Store, w: Write, dim: nat)
    requires Aged(before, dim) && Fits(w, dim) && !w.Compacts?
    ensures Written(before, w, dim).data.ids == before.data.ids + NewIds([w])
  {
    assert [w][..0] == [] && NewIds([w][..0]) == [];
    assert before.data.ids + [] == before.data.ids;
    assert Valid(before.data, dim);
    hide Valid, Upserted, Deleted, Reindexed, IndexDeclared, Newest;
    match w
    case Upserts(p) => UpsertKeeps(before.data, p, dim);
    case Deletes(id) => DeleteKeeps(before.data, id, dim);
    case Reindexes(metric) => RebuildKeeps(before.data, metric, dim);
    case Declares(key, kind) => DeclareKeeps(before.data, key, kind, dim);
  }

  lemma {:induction false} PastLastJoin(a: seq<string>, b: seq<string>, id: string)
    ensures id !in b ==> PastLast(a + b, id) == PastLast(a, id)
    ensures id in b ==> PastLast(a + b, id) > |a|
  {
    if b == [] {
      assert a + b == a;
    } else {
      PastLastJoin(a, b[..|b| - 1], id);
      assert (a + b)[..|a + b| - 1] == a + b[..|b| - 1];
    }
  }

  /** Whatever the writes short of a compaction and whatever the cursor: the next
      page starts at the same slot if and only if none of them upserts the cursor's
      id. If one does, the page starts behind every slot there was, and what was
      still to come is missed. */
  lemma StartMovesIff(s: Store, ws: seq<Write>, dim: nat, cursor: string, f: Filter, limit: nat)
    requires Aged(s, dim) && Newest(s.data) && AllFit(ws, dim) && Compactless(ws) && limit > 0
    ensures var d, e := s.data, WrittenAll(s, ws, dim).data;
      var start := StartSlot(e, Some(cursor));
      && (start == StartSlot(d, Some(cursor)) <==> Spares(ws, cursor))
      && (!Spares(ws, cursor) ==> |d.ids| < start)
      && start <= |e.ids| == |e.payloads|
      && (!Spares(ws, cursor) ==> forall i :: i in PageFrom(e, f, start, limit).slots ==> i >= |d.ids|)
  {
    var t := WrittenAll(s, ws, dim);
    var start := StartSlot(t.data, Some(cursor));
    WritesEvolve(s, ws, dim);
    NewestStart(s.data, dim, cursor);
    NewestStart(t.data, dim, cursor);
    IdsGrow(s, ws, dim);
    NewIdsSpare(ws, cursor);
    PastLastJoin(s.data.ids, NewIds(ws), cursor);
    hide Valid, Newest, Held;
    PageIsRange(t.data, f, start, limit);
  }

  // ----- whole scrolls ------------------------------------------------------

  /** The store in which a page was read, the cursor it was read after, and what was
      written since the page before. */
  datatype Turn = Turn(store: Store, after: Option<string>, since: seq<Write>)

  function StartOf(t: Turn): nat {
    StartSlot(t.store.data, t.after)
  }

  ghost predicate Readable(t: Turn, dim: nat) {
    Aged(t.store, dim) && StartOf(t) <= |t.store.births|
  }

  ghost function PageOf(t: Turn, f: Filter, limit: nat, dim: nat): Page
    requires Readable(t, dim) && limit > 0
  {
    PageFrom(t.store.data, f, StartOf(t), limit)
  }

  /** The next page is read after the last point of this one. */
  ghost predicate TurnFollows(t: Turn, u: Turn, f: Filter, limit: nat, dim: nat)
    requires Readable(t, dim) && limit > 0
  {
    var p := PageOf(t, f, limit, dim);
    && p.resume.Some? && 0 < p.resume.value <= |t.store.data.ids|
    && u.after == Some(t.store.data.ids[p.resume.value - 1])
    && AllFit(u.since, dim) && u.store == WrittenAll(t.store, u.since, dim)
  }

  /** Page `k` follows the one before it. */
  ghost predicate Follows(ts: seq<Turn>, k: nat, f: Filter, limit: nat, dim: nat)
    requires 0 < k < |ts|
  {
    limit > 0 && Readable(ts[k - 1], dim) && TurnFollows(ts[k - 1], ts[k], f, limit, dim)
  }

  ghost predicate IsScroll(ts: seq<Turn>, f: Filter, limit: nat, dim: nat) {
    && |ts| > 0 && limit > 0 && ts[0].after.None?
    && (forall k :: 0 <= k < |ts| ==> Readable(ts[k], dim))
    && (forall k :: 0 < k < |ts| ==> Follows(ts, k, f, limit, dim))
  }

  ghost predicate IsNewScroll(ts: seq<Turn>, f: Filter, limit: nat, dim: nat) {
    IsScroll(ts, f, limit, dim) && Newest(ts[0].store.data)
  }

  /** What became of the cursor before page `k`. */
  function FateAt(ts: seq<Turn>, k: nat): Fate
    requires 0 < k < |ts|
  {
    if ts[k].after.None? then Stays(true) else FateOf(ts[k].since, ts[k].after.value)
  }

  // ----- one page by births -------------------------------------------------

  function BirthsAt(births: seq<nat>, slots: seq<nat>): (r: seq<nat>)
    ensures |r| == |slots|
  {
    seq(|slots|, i requires 0 <= i < |slots| => if slots[i] < |births| then births[slots[i]] else 0)
  }

  /** The first birth that a page beginning at a slot can hold. */
  function From(births: seq<nat>, start: nat): nat {
    if 0 < start <= |births| then births[start - 1] + 1 else 0
  }

  function PageStop(s: Store, p: Page): nat {
    if p.resume.Some? then From(s.births, p.resume.value) else s.next
  }

  /** A version that the filter matches is there. */
  ghost predicate Wanted(s: Store, dim: nat, f: Filter, b: nat)
    requires Shape(s.data, dim) && |s.births| == |s.data.ids|
  {
    exists i: nat :: WantedAt(s, f, i, b)
  }

  ghost predicate WantedAt(s: Store, f: Filter, i: nat, b: nat)
    requires |s.births| == |s.data.ids| == |s.data.payloads|
  {
    i < |s.births| && s.births[i] == b && Matching(s.data, f, i)
  }

  lemma WantedIs(s: Store, dim: nat, f: Filter, b: nat)
    requires Shape(s.data, dim) && |s.births| == |s.data.ids|
    ensures Wanted(s, dim, f, b) <==> exists p :: Held(s, dim, b, p) && f.Matches(p.payload)
  {
    if Wanted(s, dim, f, b) {
      var i: nat :| WantedAt(s, f, i, b);
      assert Holds(s, dim, i, b, PointAt(s.data, dim, i));
      assert Held(s, dim, b, PointAt(s.data, dim, i));
    }
    if p :| Held(s, dim, b, p) && f.Matches(p.payload) {
      var i: nat :| Holds(s, dim, i, b, p);
      assert WantedAt(s, f, i, b);
    }
  }

  /** Whoever is wanted later was wanted before. */
  lemma WantedBefore(s: Store, t: Store, dim: nat, f: Filter, b: nat)
    requires Aged(s, dim) && Aged(t, dim) && Evolves(s, t, dim) && b < s.next && Wanted(t, dim, f, b)
    ensures Wanted(s, dim, f, b)
  {
    assert Shape(s.data, dim) && Shape(t.data, dim);
    hide Valid, Shape, Held, Wanted;
    WantedIs(t, dim, f, b);
    WantedIs(s, dim, f, b);
    var p :| Held(t, dim, b, p) && f.Matches(p.payload);
    assert Held(s, dim, b, p);
  }

  /** The births of a page are, in order, those of the wanted versions between where
      it begins and where it stops. */
  ghost predicate PageHolds(s: Store, dim: nat, f: Filter, births: seq<nat>, from: nat, stop: nat)
    requires Shape(s.data, dim) && |s.births| == |s.data.ids|
  {
    && from <= stop <= s.next && Increasing(births)
    && forall b :: b in births <==> from <= b < stop && Wanted(s, dim, f, b)
  }

  lemma SlotOrder(births: seq<nat>, i: nat, start: nat)
    requires Increasing(births) && i < |births| && start <= |births|
    ensures births[i] >= From(births, start) <==> i >= start
  {
  }

  lemma BirthsOrdered(births: seq<nat>, slots: seq<nat>)
    requires Increasing(births) && Increasing(slots) && forall i :: 0 <= i < |slots| ==> slots[i] < |births|
    ensures Increasing(BirthsAt(births, slots))
    ensures forall b :: b in BirthsAt(births, slots) <==> exists i :: i in slots && i < |births| && births[i] == b
  {
    var r := BirthsAt(births, slots);
    forall b | b in r ensures exists i :: i in slots && i < |births| && births[i] == b {
      var j :| 0 <= j < |r| && r[j] == b;
      assert slots[j] in slots;
    }
    forall i | i in slots ensures births[i] in r {
      var j :| 0 <= j < |slots| && slots[j] == i;
      assert r[j] == births[i];
    }
  }

  lemma PageBirths(s: Store, dim: nat, f: Filter, start: nat, limit: nat)
    requires Aged(s, dim) && start <= |s.births| && limit > 0
    ensures var p := PageFrom(s.data, f, start, limit);
      && PageHolds(s, dim, f, BirthsAt(s.births, p.slots), From(s.births, start), PageStop(s, p))
      && (p.resume.Some? ==> PageStop(s, p) - 1 in BirthsAt(s.births, p.slots))
  {
    var p := PageFrom(s.data, f, start, limit);
    var stop := if p.resume.Some? then p.resume.value else |s.births|;
    assert Shape(s.data, dim);
    hide Valid, Shape, PageFrom;
    PageIsRange(s.data, f, start, limit);
    assert forall i :: i in p.slots <==> start <= i < stop && Matching(s.data, f, i);
    forall i | 0 <= i < |p.slots| ensures p.slots[i] < |s.births| {
      assert p.slots[i] in p.slots;
    }
    BirthsOrdered(s.births, p.slots);
    var from, last := From(s.births, start), PageStop(s, p);
    forall i: nat | i < |s.births|
      ensures (from <= s.births[i] <==> start <= i) && (s.births[i] < last <==> i < stop)
    {
      SlotOrder(s.births, i, start);
      SlotOrder(s.births, i, stop);
    }
    BirthsWanted(s, dim, f, p.slots, start, stop, from, last);
    if p.resume.Some? {
      assert p.slots[limit - 1] in p.slots && p.slots[limit - 1] == stop - 1;
    }
  }

  lemma BirthsWanted(
    s: Store, dim: nat, f: Filter, slots: seq<nat>, start: nat, stop: nat, from: nat, last: nat)
    requires Shape(s.data, dim) && |s.births| == |s.data.ids|
    requires forall i :: i in slots <==> start <= i < stop && i < |s.births| && Matching(s.data, f, i)
    requires forall i: nat :: i < |s.births| ==>
      (from <= s.births[i] <==> start <= i) && (s.births[i] < last <==> i < stop)
    requires forall b :: b in BirthsAt(s.births, slots) <==>
      exists i :: i in slots && i < |s.births| && s.births[i] == b
    ensures forall b :: b in BirthsAt(s.births, slots) <==> from <= b < last && Wanted(s, dim, f, b)
  {
    assert |s.data.payloads| == |s.data.ids|;
    hide Shape, Matching, BirthsAt;
    forall b | b in BirthsAt(s.births, slots) ensures from <= b < last && Wanted(s, dim, f, b) {
      var i :| i in slots && i < |s.births| && s.births[i] == b;
      assert WantedAt(s, f, i, b);
    }
    forall b: nat | from <= b < last && Wanted(s, dim, f, b) ensures b in BirthsAt(s.births, slots) {
      var i: nat :| WantedAt(s, f, i, b);
      assert i in slots;
    }
  }

  // ----- pages in a row -----------------------------------------------------

  ghost function PageAt(ts: seq<Turn>, f: Filter, limit: nat, dim: nat, k: nat): Page
    requires IsScroll(ts, f, limit, dim) && k < |ts|
  {
    PageOf(ts[k], f, limit, dim)
  }

  /** The births on page `k`. */
  ghost function BirthsOn(ts: seq<Turn>, f: Filter, limit: nat, dim: nat, k: nat): seq<nat>
    requires IsScroll(ts, f, limit, dim) && k < |ts|
  {
    BirthsAt(ts[k].store.births, PageAt(ts, f, limit, dim, k).slots)
  }

  /** The births returned by the first `n` pages. */
  ghost function Returned(ts: seq<Turn>, f: Filter, limit: nat, dim: nat, n: nat): seq<nat>
    requires IsScroll(ts, f, limit, dim) && n <= |ts|
  {
    if n == 0 then [] else Returned(ts, f, limit, dim, n - 1) + BirthsOn(ts, f, limit, dim, n - 1)
  }

  /** Where the first `n` pages stop. */
  ghost function StopOf(ts: seq<Turn>, f: Filter, limit: nat, dim: nat, n: nat): nat
    requires IsScroll(ts, f, limit, dim) && n <= |ts|
  {
    if n == 0 then 0 else PageStop(ts[n - 1].store, PageAt(ts, f, limit, dim, n - 1))
  }

  /** Where page `k` begins. */
  ghost function FromOf(ts: seq<Turn>, k: nat): nat
    requires k < |ts|
  {
    From(ts[k].store.births, StartOf(ts[k]))
  }

  lemma PageAtHolds(ts: seq<Turn>, f: Filter, limit: nat, dim: nat, k: nat)
    requires IsScroll(ts, f, limit, dim) && k < |ts|
    ensures Aged(ts[k].store, dim)
    ensures PageHolds(
      ts[k].store, dim, f, BirthsOn(ts, f, limit, dim, k), FromOf(ts, k), StopOf(ts, f, limit, dim, k + 1))
    ensures var p := PageAt(ts, f, limit, dim, k);
      && (p.resume.Some? ==> StopOf(ts, f, limit, dim, k + 1) - 1 in BirthsOn(ts, f, limit, dim, k))
      && (p.resume.None? ==> StopOf(ts, f, limit, dim, k + 1) == ts[k].store.next)
  {
    assert Readable(ts[k], dim);
    hide Valid, PageHolds, TurnFollows;
    PageBirths(ts[k].store, dim, f, StartOf(ts[k]), limit);
  }

  /** The store before page `k` after the one before it, and where the page begins. */
  ghost predicate Gap(ts: seq<Turn>, f: Filter, limit: nat, dim: nat, k: nat)
    requires IsScroll(ts, f, limit, dim) && 0 < k < |ts|
  {
    var stop, from := StopOf(ts, f, limit, dim, k), FromOf(ts, k);
    && Aged(ts[k - 1].store, dim) && Aged(ts[k].store, dim)
    && Newest(ts[k].store.data) && Evolves(ts[k - 1].store, ts[k].store, dim)
    && match FateAt(ts, k)
       case Stays(_) => from == stop
       case Moves(_) => from > ts[k - 1].store.next
       case Lost => StartOf(ts[k]) == 0
  }

  /** Where a page begins, by births, after what became of its cursor. */
  ghost predicate BeginsAfter(fate: Fate, births: seq<nat>, start: nat, stop: nat, next: nat) {
    match fate
    case Stays(_) => From(births, start) == stop
    case Moves(_) => From(births, start) > next
    case Lost => start == 0
  }

  lemma StartBegins(fate: Fate, births: seq<nat>, start: nat, b: nat, next: nat)
    requires StartsAt(fate, births, start, b, next)
    ensures BeginsAfter(fate, births, start, b + 1, next)
  {
  }

  lemma TurnBegins(t: Turn, u: Turn, f: Filter, limit: nat, dim: nat)
    requires Readable(t, dim) && Readable(u, dim) && limit > 0 && TurnFollows(t, u, f, limit, dim)
    requires Newest(t.store.data)
    ensures Newest(u.store.data) && Evolves(t.store, u.store, dim) && u.after.Some?
    ensures BeginsAfter(FateOf(u.since, u.after.value), u.store.births, StartOf(u),
                        PageStop(t.store, PageOf(t, f, limit, dim)), t.store.next)
  {
    ResumeIsLive(t, f, limit, dim);
    WritesEvolve(t.store, u.since, dim);
    var last := PageOf(t, f, limit, dim).resume.value - 1;
    var fate := FateOf(u.since, u.after.value);
    hide Valid, Newest, Evolves, PageOf, Increasing, WrittenAll, FateOf, StartsAt, BeginsAfter;
    NextStart(t.store, u.since, dim, u.after.value, last);
    StartBegins(fate, u.store.births, StartOf(u), t.store.births[last], t.store.next);
  }

  lemma GapOf(ts: seq<Turn>, f: Filter, limit: nat, dim: nat, k: nat)
    requires IsScroll(ts, f, limit, dim) && 0 < k < |ts| && Newest(ts[k - 1].store.data)
    ensures Gap(ts, f, limit, dim, k)
  {
    assert Readable(ts[k - 1], dim) && Readable(ts[k], dim) && Follows(ts, k, f, limit, dim);
    hide Valid, Newest, Evolves, PageOf, IsScroll, Increasing, FateOf, WrittenAll, From, PageStop;
    TurnBegins(ts[k - 1], ts[k], f, limit, dim);
  }

  lemma ResumeIsLive(t: Turn, f: Filter, limit: nat, dim: nat)
    requires Readable(t, dim) && limit > 0
    ensures var p := PageOf(t, f, limit, dim);
      p.resume.Some? ==> 0 < p.resume.value <= |t.store.births| && Live(t.store.data, p.resume.value - 1)
  {
    var p := PageOf(t, f, limit, dim);
    assert Shape(t.store.data, dim);
    hide Valid;
    PageIsRange(t.store.data, f, StartOf(t), limit);
    if p.resume.Some? {
      assert p.slots[limit - 1] in p.slots;
    }
  }

  lemma {:induction false} Along(ts: seq<Turn>, f: Filter, limit: nat, dim: nat, k: nat, m: nat)
    requires IsNewScroll(ts, f, limit, dim) && k <= m < |ts|
    ensures Aged(ts[k].store, dim) && Aged(ts[m].store, dim)
    ensures Newest(ts[m].store.data) && Evolves(ts[k].store, ts[m].store, dim)
    ensures 0 < m ==> Gap(ts, f, limit, dim, m)
    decreases m
  {
    assert Readable(ts[k], dim) && Readable(ts[m], dim);
    if m == 0 {
      hide Valid;
    } else {
      Along(ts, f, limit, dim, if k < m then k else m - 1, m - 1);
      GapOf(ts, f, limit, dim, m);
      hide Valid, IsScroll, Held, TurnFollows;
      assert Aged(ts[m - 1].store, dim) && Evolves(ts[m - 1].store, ts[m].store, dim);
      if k < m {
        EvolvesTrans(ts[k].store, ts[m - 1].store, ts[m].store, dim);
      } else {
        EvolvesSelf(ts[m].store, dim);
      }
    }
  }

  lemma EvolvesSelf(s: Store, dim: nat)
    requires Aged(s, dim)
    ensures Evolves(s, s, dim)
  {
    hide Valid, Held;
  }

  /** No cursor of the first `n` pages was dropped by a compaction. */
  ghost predicate NoneLost(ts: seq<Turn>, n: nat) {
    forall k :: 0 < k < n && k < |ts| ==> !FateAt(ts, k).Lost?
  }

  /** Between where a page stopped and where the next one begins. */
  ghost predicate SkippedAt(ts: seq<Turn>, f: Filter, limit: nat, dim: nat, k: nat, b: nat)
    requires IsScroll(ts, f, limit, dim) && 0 < k < |ts|
  {
    StopOf(ts, f, limit, dim, k) <= b < FromOf(ts, k)
  }

  /** Page `k` begins where the one before stopped exactly when its cursor stays. */
  lemma BeginsIff(ts: seq<Turn>, f: Filter, limit: nat, dim: nat, k: nat)
    requires IsNewScroll(ts, f, limit, dim) && 0 < k < |ts| && !FateAt(ts, k).Lost?
    ensures StopOf(ts, f, limit, dim, k) <= FromOf(ts, k)
    ensures StopOf(ts, f, limit, dim, k) == FromOf(ts, k) <==> FateAt(ts, k).Stays?
    ensures FateAt(ts, k).Moves? ==> ts[k - 1].store.next < FromOf(ts, k)
    ensures StopOf(ts, f, limit, dim, k) <= ts[k - 1].store.next
  {
    StopBelow(ts, f, limit, dim, k - 1);
    hide IsScroll, IsNewScroll, Valid, Evolves, Newest, Aged, StopOf, FromOf, FateAt;
    Along(ts, f, limit, dim, k, k);
  }

  lemma StopBelow(ts: seq<Turn>, f: Filter, limit: nat, dim: nat, k: nat)
    requires IsScroll(ts, f, limit, dim) && k < |ts|
    ensures FromOf(ts, k) <= StopOf(ts, f, limit, dim, k + 1) <= ts[k].store.next
  {
    hide IsScroll, Wanted, StopOf, FromOf, BirthsOn, Valid, Aged;
    PageAtHolds(ts, f, limit, dim, k);
  }

  ghost function AllWanted(s: Store, dim: nat, f: Filter): iset<nat>
    requires Shape(s.data, dim) && |s.births| == |s.data.ids|
  {
    iset b: nat | Wanted(s, dim, f, b)
  }

  predicate Inside(lo: nat, b: nat, hi: nat) {
    lo <= b < hi
  }

  ghost function Between(lo: nat, hi: nat): iset<nat> {
    iset b: nat | Inside(lo, b, hi)
  }

  ghost function AllSkipped(ts: seq<Turn>, f: Filter, limit: nat, dim: nat, n: nat): iset<nat>
    requires IsScroll(ts, f, limit, dim) && n <= |ts|
  {
    if n <= 1 then iset{}
    else AllSkipped(ts, f, limit, dim, n - 1) + Between(StopOf(ts, f, limit, dim, n - 1), FromOf(ts, n - 1))
  }

  lemma {:induction false} SkippedIs(ts: seq<Turn>, f: Filter, limit: nat, dim: nat, n: nat, b: nat)
    requires IsScroll(ts, f, limit, dim) && n <= |ts|
    ensures b in AllSkipped(ts, f, limit, dim, n) <==> exists k :: 0 < k < n && SkippedAt(ts, f, limit, dim, k, b)
  {
    hide IsScroll, StopOf, FromOf;
    if n > 1 {
      SkippedIs(ts, f, limit, dim, n - 1, b);
      if b in AllSkipped(ts, f, limit, dim, n) {
        if b !in AllSkipped(ts, f, limit, dim, n - 1) {
          assert SkippedAt(ts, f, limit, dim, n - 1, b);
        }
      }
    }
  }

  /** What the first `n` pages returned, as seen from the store of page `m`: in order
      and once, every wanted version below their stop except the skipped ones. */
  ghost predicate SoFar(ts: seq<Turn>, f: Filter, limit: nat, dim: nat, n: nat, m: nat)
    requires IsScroll(ts, f, limit, dim) && n <= |ts| && m < |ts| && Aged(ts[m].store, dim)
  {
    Complete(Returned(ts, f, limit, dim, n), StopOf(ts, f, limit, dim, n), AllWanted(ts[m].store, dim, f),
             AllSkipped(ts, f, limit, dim, n))
  }

  ghost predicate Complete(r: seq<nat>, stop: nat, wanted: iset<nat>, skipped: iset<nat>) {
    && Increasing(r) && (forall b :: b in r ==> b < stop && b !in skipped)
    && (forall b: nat :: b in skipped ==> b < stop)
    && (forall b: nat :: b < stop && b in wanted && b !in skipped ==> b in r)
  }

  lemma IncreasingJoin(a: seq<nat>, b: seq<nat>, stop: nat)
    requires Increasing(a) && Increasing(b) && (forall x :: x in a ==> x < stop) && (forall x :: x in b ==> stop <= x)
    ensures Increasing(a + b)
  {
    forall i, j | 0 <= i < j < |a + b| ensures (a + b)[i] < (a + b)[j] {
      assert i < |a| ==> a[i] in a;
      assert j >= |a| ==> b[j - |a|] in b;
    }
  }

  /** One page more, seen through the numbers alone. */
  lemma PageAdds(
    r: seq<nat>, bs: seq<nat>, was: nat, from: nat, stop: nat, wanted: iset<nat>, now: iset<nat>,
    skipped: iset<nat>, after: iset<nat>)
    requires Complete(r, was, wanted, skipped) && Increasing(bs) && was <= from <= stop
    requires forall b :: b in bs <==> from <= b < stop && b in now
    requires forall b: nat :: b < stop && b in wanted ==> b in now
    requires forall b: nat :: b in after <==> b in skipped || was <= b < from
    ensures Complete(r + bs, stop, wanted, after)
  {
    IncreasingJoin(r, bs, from);
  }

  lemma LaterWanted(ts: seq<Turn>, f: Filter, limit: nat, dim: nat, n: nat, m: nat)
    requires IsNewScroll(ts, f, limit, dim) && n <= m < |ts|
    ensures Aged(ts[n].store, dim) && Aged(ts[m].store, dim)
    ensures forall b: nat :: b < ts[n].store.next && b in AllWanted(ts[m].store, dim, f) ==>
      b in AllWanted(ts[n].store, dim, f)
  {
    Along(ts, f, limit, dim, n, m);
    var s, t := ts[n].store, ts[m].store;
    assert Shape(s.data, dim) && Shape(t.data, dim);
    hide *;
    forall b: nat | b < s.next && Wanted(t, dim, f, b) ensures Wanted(s, dim, f, b) {
      WantedBefore(s, t, dim, f, b);
    }
  }

  lemma PageIsWanted(ts: seq<Turn>, f: Filter, limit: nat, dim: nat, n: nat)
    requires IsScroll(ts, f, limit, dim) && n < |ts|
    ensures Aged(ts[n].store, dim)
    ensures forall b :: b in BirthsOn(ts, f, limit, dim, n) <==>
      FromOf(ts, n) <= b < StopOf(ts, f, limit, dim, n + 1) && b in AllWanted(ts[n].store, dim, f)
    ensures Increasing(BirthsOn(ts, f, limit, dim, n))
    ensures FromOf(ts, n) <= StopOf(ts, f, limit, dim, n + 1) <= ts[n].store.next
  {
    hide IsScroll, BirthsOn, StopOf, FromOf, Valid, Wanted;
    PageAtHolds(ts, f, limit, dim, n);
  }

  lemma NextSkipped(ts: seq<Turn>, f: Filter, limit: nat, dim: nat, n: nat)
    requires IsNewScroll(ts, f, limit, dim) && n < |ts| && NoneLost(ts, n + 1)
    ensures forall b: nat :: b in AllSkipped(ts, f, limit, dim, n + 1) <==>
      b in AllSkipped(ts, f, limit, dim, n) || StopOf(ts, f, limit, dim, n) <= b < FromOf(ts, n)
  {
    Begins(ts, f, limit, dim, n);
    assert IsScroll(ts, f, limit, dim);
    hide IsScroll, IsNewScroll, NoneLost, StopOf, FromOf;
  }

  lemma SoFarNext(ts: seq<Turn>, f: Filter, limit: nat, dim: nat, n: nat, m: nat)
    requires IsNewScroll(ts, f, limit, dim) && n <= m < |ts| && NoneLost(ts, n + 1)
    requires Aged(ts[m].store, dim) && SoFar(ts, f, limit, dim, n, m)
    ensures SoFar(ts, f, limit, dim, n + 1, m)
  {
    assert Returned(ts, f, limit, dim, n + 1) ==
      Returned(ts, f, limit, dim, n) + BirthsOn(ts, f, limit, dim, n);
    assert IsScroll(ts, f, limit, dim);
    hide IsScroll, IsNewScroll, NoneLost, Valid, Wanted, FateAt, BirthsOn, StopOf, FromOf, Returned,
      AllWanted, AllSkipped, Increasing, Complete;
    LaterWanted(ts, f, limit, dim, n, m);
    Begins(ts, f, limit, dim, n);
    NextSkipped(ts, f, limit, dim, n);
    PageIsWanted(ts, f, limit, dim, n);
    AgedShape(ts[n].store, dim);
    AgedShape(ts[m].store, dim);
    hide Aged, Shape;
    PageAdds(Returned(ts, f, limit, dim, n), BirthsOn(ts, f, limit, dim, n), StopOf(ts, f, limit, dim, n),
             FromOf(ts, n), StopOf(ts, f, limit, dim, n + 1), AllWanted(ts[m].store, dim, f),
             AllWanted(ts[n].store, dim, f), AllSkipped(ts, f, limit, dim, n), AllSkipped(ts, f, limit, dim, n + 1));
  }

  lemma AgedShape(s: Store, dim: nat)
    requires Aged(s, dim)
    ensures Shape(s.data, dim) && |s.births| == |s.data.ids|
  {
  }

  /** The first page begins at the first slot, and none before the last one's stop. */
  lemma Begins(ts: seq<Turn>, f: Filter, limit: nat, dim: nat, n: nat)
    requires IsNewScroll(ts, f, limit, dim) && n < |ts| && NoneLost(ts, n + 1)
    ensures StopOf(ts, f, limit, dim, n) <= FromOf(ts, n)
    ensures n == 0 ==> StopOf(ts, f, limit, dim, n) == FromOf(ts, n) == 0
  {
    if n > 0 {
      BeginsIff(ts, f, limit, dim, n);
    }
  }

  lemma NoPageYet(ts: seq<Turn>, f: Filter, limit: nat, dim: nat, m: nat)
    requires IsScroll(ts, f, limit, dim) && m < |ts| && Aged(ts[m].store, dim)
    ensures SoFar(ts, f, limit, dim, 0, m)
  {
    hide IsScroll, Aged, AllWanted;
  }

  lemma {:induction false} PagesSoFar(ts: seq<Turn>, f: Filter, limit: nat, dim: nat, n: nat, m: nat)
    requires IsNewScroll(ts, f, limit, dim) && n <= m + 1 && m < |ts| && NoneLost(ts, n)
    ensures Aged(ts[m].store, dim) && SoFar(ts, f, limit, dim, n, m)
  {
    assert Readable(ts[m], dim) && IsScroll(ts, f, limit, dim);
    if n == 0 {
      hide *;
      NoPageYet(ts, f, limit, dim, m);
    } else {
      assert NoneLost(ts, n - 1);
      hide *;
      PagesSoFar(ts, f, limit, dim, n - 1, m);
      SoFarNext(ts, f, limit, dim, n - 1, m);
    }
  }

  // ----- exactly once, or not -----------------------------------------------

  /** The scroll is over: the last page has no successor. */
  ghost predicate IsDone(ts: seq<Turn>, f: Filter, limit: nat, dim: nat) {
    IsNewScroll(ts, f, limit, dim) && PageOf(ts[|ts| - 1], f, limit, dim).resume.None?
  }

  /** The births of what is there in the end and matches. */
  ghost function InTheEnd(ts: seq<Turn>, f: Filter, limit: nat, dim: nat): iset<nat>
    requires IsScroll(ts, f, limit, dim)
  {
    assert Readable(ts[|ts| - 1], dim);
    AllWanted(ts[|ts| - 1].store, dim, f)
  }

  lemma EndBelow(ts: seq<Turn>, f: Filter, limit: nat, dim: nat)
    requires IsDone(ts, f, limit, dim)
    ensures forall b :: b in InTheEnd(ts, f, limit, dim) ==> b < StopOf(ts, f, limit, dim, |ts|)
  {
    var last := |ts| - 1;
    PageAtHolds(ts, f, limit, dim, last);
    assert Readable(ts[last], dim);
    hide IsScroll, Valid, PageHolds, BirthsOn, StopOf;
    forall b: nat | Wanted(ts[last].store, dim, f, b) ensures b < ts[last].store.next {
      var i: nat :| WantedAt(ts[last].store, f, i, b);
    }
  }

  /** While no compaction drops a dead cursor nothing is returned twice, and in the
      end everything there that matches was returned, except what lies between where
      a page stopped and where the next one began. */
  lemma ReturnedIff(ts: seq<Turn>, f: Filter, limit: nat, dim: nat)
    requires IsDone(ts, f, limit, dim) && NoneLost(ts, |ts|)
    ensures Increasing(Returned(ts, f, limit, dim, |ts|))
    ensures forall b :: b in InTheEnd(ts, f, limit, dim) ==>
      (b in Returned(ts, f, limit, dim, |ts|) <==> b !in AllSkipped(ts, f, limit, dim, |ts|))
  {
    assert Readable(ts[|ts| - 1], dim) && IsNewScroll(ts, f, limit, dim) && IsScroll(ts, f, limit, dim);
    assert |ts| > 0;
    hide *;
    PagesSoFar(ts, f, limit, dim, |ts|, |ts| - 1);
    EndIs(ts, f, limit, dim);
    EndBelow(ts, f, limit, dim);
    SoFarMeans(ts, f, limit, dim, |ts|, |ts| - 1);
  }

  lemma EndIs(ts: seq<Turn>, f: Filter, limit: nat, dim: nat)
    requires IsScroll(ts, f, limit, dim)
    ensures Aged(ts[|ts| - 1].store, dim)
    ensures InTheEnd(ts, f, limit, dim) == AllWanted(ts[|ts| - 1].store, dim, f)
  {
    assert Readable(ts[|ts| - 1], dim);
  }

  lemma SoFarMeans(ts: seq<Turn>, f: Filter, limit: nat, dim: nat, n: nat, m: nat)
    requires IsScroll(ts, f, limit, dim) && n <= |ts| && m < |ts| && Aged(ts[m].store, dim)
    requires SoFar(ts, f, limit, dim, n, m)
    ensures Increasing(Returned(ts, f, limit, dim, n))
    ensures forall b: nat :: b in AllWanted(ts[m].store, dim, f) && b < StopOf(ts, f, limit, dim, n) ==>
      (b in Returned(ts, f, limit, dim, n) <==> b !in AllSkipped(ts, f, limit, dim, n))
  {
    hide IsScroll, Aged, Returned, AllSkipped, AllWanted, StopOf, Increasing;
  }

  ghost predicate AllStay(ts: seq<Turn>, n: nat) {
    forall k :: 0 < k < n && k < |ts| ==> FateAt(ts, k).Stays?
  }

  lemma NothingSkipped(ts: seq<Turn>, f: Filter, limit: nat, dim: nat, n: nat)
    requires IsNewScroll(ts, f, limit, dim) && n <= |ts| && AllStay(ts, n)
    ensures NoneLost(ts, n) && forall b: nat :: b !in AllSkipped(ts, f, limit, dim, n)
  {
    forall b: nat ensures b !in AllSkipped(ts, f, limit, dim, n) {
      SkippedIs(ts, f, limit, dim, n, b);
      forall k | 0 < k < n ensures !SkippedAt(ts, f, limit, dim, k, b) {
        BeginsIff(ts, f, limit, dim, k);
      }
    }
    hide FateAt, IsScroll;
  }

  /** Whatever is written between the pages, as long as nobody upserts an id that the
      scroll resumes after, or deletes one and then compacts: nothing is returned
      twice, and everything there in the end that matches was returned. */
  lemma ExactlyOnce(ts: seq<Turn>, f: Filter, limit: nat, dim: nat)
    requires IsDone(ts, f, limit, dim) && AllStay(ts, |ts|)
    ensures Increasing(Returned(ts, f, limit, dim, |ts|))
    ensures forall b :: b in InTheEnd(ts, f, limit, dim) ==> b in Returned(ts, f, limit, dim, |ts|)
  {
    NothingSkipped(ts, f, limit, dim, |ts|);
    hide AllSkipped, InTheEnd, IsScroll, Returned, AllStay, NoneLost;
    ReturnedIff(ts, f, limit, dim);
  }

  /** A scroll none of whose cursors is lost returns everything that matches in the
      end if and only if nothing of it was there, or was written before the upsert,
      behind a page whose cursor was upserted. */
  lemma CompleteIff(ts: seq<Turn>, f: Filter, limit: nat, dim: nat)
    requires IsDone(ts, f, limit, dim) && NoneLost(ts, |ts|)
    ensures (forall b :: b in InTheEnd(ts, f, limit, dim) ==> b in Returned(ts, f, limit, dim, |ts|)) <==>
      !exists k, b: nat :: 0 < k < |ts| && FateAt(ts, k).Moves? && b in InTheEnd(ts, f, limit, dim) &&
        SkippedAt(ts, f, limit, dim, k, b)
  {
    ReturnedIff(ts, f, limit, dim);
    forall b: nat ensures b in AllSkipped(ts, f, limit, dim, |ts|) <==>
      exists k :: 0 < k < |ts| && FateAt(ts, k).Moves? && SkippedAt(ts, f, limit, dim, k, b)
    {
      SkippedByMoves(ts, f, limit, dim, b);
    }
    hide AllSkipped, InTheEnd, IsScroll, Returned, NoneLost, SkippedAt, FateAt;
    if b :| b in InTheEnd(ts, f, limit, dim) && b !in Returned(ts, f, limit, dim, |ts|) {
      var k :| 0 < k < |ts| && FateAt(ts, k).Moves? && SkippedAt(ts, f, limit, dim, k, b);
    }
  }

  lemma SkippedByMoves(ts: seq<Turn>, f: Filter, limit: nat, dim: nat, b: nat)
    requires IsNewScroll(ts, f, limit, dim) && NoneLost(ts, |ts|)
    ensures b in AllSkipped(ts, f, limit, dim, |ts|) <==>
      exists k :: 0 < k < |ts| && FateAt(ts, k).Moves? && SkippedAt(ts, f, limit, dim, k, b)
  {
    SkippedIs(ts, f, limit, dim, |ts|, b);
    forall k | 0 < k < |ts| && SkippedAt(ts, f, limit, dim, k, b) ensures FateAt(ts, k).Moves? {
      assert !FateAt(ts, k).Lost?;
      BeginsIff(ts, f, limit, dim, k);
    }
  }

  /** When the cursor of page `k` is upserted, whatever else is written around it:
      what was there behind the page before and is there in the end is not returned
      by any page, if no cursor is lost. */
  lemma UpsertedCursorSkips(ts: seq<Turn>, f: Filter, limit: nat, dim: nat, k: nat, b: nat)
    requires IsNewScroll(ts, f, limit, dim) && NoneLost(ts, |ts|) && 0 < k < |ts|
    requires ts[k].after.Some? && !Spares(ts[k].since, ts[k].after.value)
    requires StopOf(ts, f, limit, dim, k) <= b < ts[k - 1].store.next
    ensures b !in Returned(ts, f, limit, dim, |ts|)
  {
    assert Follows(ts, k, f, limit, dim);
    FateIff(ts[k].since, ts[k].after.value);
    BeginsIff(ts, f, limit, dim, k);
    assert SkippedAt(ts, f, limit, dim, k, b);
    SkippedIs(ts, f, limit, dim, |ts|, b);
    PagesSoFar(ts, f, limit, dim, |ts|, |ts| - 1);
  }

  /** When a compaction has dropped the cursor of page `k`, the page begins anew. It
      repeats something if and only if something that matches and came before is
      still there. */
  lemma LostCursorRepeatsIff(ts: seq<Turn>, f: Filter, limit: nat, dim: nat, k: nat)
    requires IsNewScroll(ts, f, limit, dim) && 0 < k < |ts| && AllStay(ts, k) && FateAt(ts, k).Lost?
    ensures Aged(ts[k].store, dim) && FromOf(ts, k) == 0
    ensures (exists b :: b in BirthsOn(ts, f, limit, dim, k) && b in Returned(ts, f, limit, dim, k)) <==>
      exists b: nat :: b < StopOf(ts, f, limit, dim, k) && b in AllWanted(ts[k].store, dim, f)
  {
    var r, bs, was, stop := Returned(ts, f, limit, dim, k), BirthsOn(ts, f, limit, dim, k),
      StopOf(ts, f, limit, dim, k), StopOf(ts, f, limit, dim, k + 1);
    assert IsScroll(ts, f, limit, dim) && Readable(ts[k], dim);
    AgedShape(ts[k].store, dim);
    LostFrom(ts, f, limit, dim, k);
    var there := AllWanted(ts[k].store, dim, f);
    hide AllSkipped, AllWanted, IsScroll, IsNewScroll, Returned, BirthsOn, StopOf, AllStay, FromOf, Readable, Aged,
      Shape, NoneLost, Increasing, FateAt, Complete;
    NothingSkipped(ts, f, limit, dim, k);
    PagesSoFar(ts, f, limit, dim, k, k);
    PageIsWanted(ts, f, limit, dim, k);
    LostOne(ts, f, limit, dim, k);
    RepeatsBelow(r, bs, was, stop, there, AllSkipped(ts, f, limit, dim, k));
  }

  lemma LostFrom(ts: seq<Turn>, f: Filter, limit: nat, dim: nat, k: nat)
    requires IsNewScroll(ts, f, limit, dim) && 0 < k < |ts| && FateAt(ts, k).Lost?
    ensures FromOf(ts, k) == 0
  {
    hide IsScroll, FateAt, StopOf, Aged, Newest, Evolves;
    Along(ts, f, limit, dim, k, k);
  }

  /** A page that begins anew stops behind everything, or with something on it. */
  lemma LostOne(ts: seq<Turn>, f: Filter, limit: nat, dim: nat, k: nat)
    requires IsScroll(ts, f, limit, dim) && k < |ts|
    ensures Aged(ts[k].store, dim)
    ensures (forall b: nat :: b in AllWanted(ts[k].store, dim, f) ==> b < StopOf(ts, f, limit, dim, k + 1)) ||
      (StopOf(ts, f, limit, dim, k + 1) > 0 &&
       StopOf(ts, f, limit, dim, k + 1) - 1 in BirthsOn(ts, f, limit, dim, k))
  {
    PageAtHolds(ts, f, limit, dim, k);
    assert Readable(ts[k], dim);
    hide IsScroll, Valid, PageHolds, BirthsOn, StopOf;
    forall b: nat | Wanted(ts[k].store, dim, f, b) ensures b < ts[k].store.next {
      var i: nat :| WantedAt(ts[k].store, f, i, b);
    }
  }

  lemma RepeatsBelow(r: seq<nat>, bs: seq<nat>, was: nat, stop: nat, there: iset<nat>, skipped: iset<nat>)
    requires Complete(r, was, there, skipped) && forall b: nat :: b !in skipped
    requires forall b: nat :: b in bs <==> b < stop && b in there
    requires (forall b: nat :: b in there ==> b < stop) || (stop > 0 && stop - 1 in bs)
    ensures (exists b :: b in bs && b in r) <==> exists b: nat :: b < was && b in there
  {
    if b: nat :| b < was && b in there {
      if b < stop {
        assert b in bs && b in r;
      } else {
        assert stop - 1 in bs && stop - 1 in r;
      }
    }
  }

  // ----- an unchanged collection --------------------------------------------

  lemma PointsAtNext(d: Data, dim: nat, slots: seq<nat>, points: seq<Point>, n: nat)
    requires Shape(d, dim) && n < |d.ids| && PointsAt(d, dim, slots, points)
    ensures PointsAt(d, dim, slots + [n], points + [PointAt(d, dim, n)])
  {
    hide PointAt;
  }

  lemma MatchesNext(d: Data, f: Filter, n: nat)
    requires n < |d.ids| == |d.payloads|
    ensures MatchesIn(d, f, 0, n + 1) == MatchesIn(d, f, 0, n) + if Matching(d, f, n) then [n] else []
  {
    hide Matching, Increasing;
  }

  lemma OneMorePoint(d: Data, f: Filter, dim: nat, n: nat, slots: seq<nat>, points: seq<Point>)
    requires Shape(d, dim) && n < |d.ids| == |d.payloads| && PointsAt(d, dim, slots, points)
    requires slots == MatchesIn(d, f, 0, n) && points == Chosen(PointsBelow(d, dim, n), f)
    ensures PointsAt(d, dim, MatchesIn(d, f, 0, n + 1), Chosen(PointsBelow(d, dim, n + 1), f))
  {
    hide *;
    ChosenNext(d, f, dim, n);
    MatchesNext(d, f, n);
    if Matching(d, f, n) {
      PointsAtNext(d, dim, slots, points, n);
    } else {
      assert slots + [] == slots && points + [] == points;
    }
  }

  lemma {:induction false} MatchesArePoints(d: Data, f: Filter, dim: nat, n: nat)
    requires Shape(d, dim) && n <= |d.ids|
    ensures PointsAt(d, dim, MatchesIn(d, f, 0, n), Chosen(PointsBelow(d, dim, n), f))
  {
    assert |d.payloads| == |d.ids|;
    if n == 0 {
      assert MatchesIn(d, f, 0, 0) == [] && Chosen(PointsBelow(d, dim, 0), f) == [];
    } else {
      hide *;
      MatchesArePoints(d, f, dim, n - 1);
      OneMorePoint(d, f, dim, n - 1, MatchesIn(d, f, 0, n - 1), Chosen(PointsBelow(d, dim, n - 1), f));
    }
  }

  ghost predicate Unwritten(ts: seq<Turn>) {
    forall k :: 0 < k < |ts| ==> ts[k].since == []
  }

  /** The slots on the first `n` pages. */
  ghost function SlotsOn(ts: seq<Turn>, f: Filter, limit: nat, dim: nat, n: nat): seq<nat>
    requires IsScroll(ts, f, limit, dim) && n <= |ts|
  {
    if n == 0 then [] else SlotsOn(ts, f, limit, dim, n - 1) + PageAt(ts, f, limit, dim, n - 1).slots
  }

  ghost function SlotStop(ts: seq<Turn>, f: Filter, limit: nat, dim: nat, n: nat): nat
    requires IsScroll(ts, f, limit, dim) && n <= |ts|
  {
    if n == 0 then 0
    else
      var p := PageAt(ts, f, limit, dim, n - 1);
      if p.resume.Some? then p.resume.value else |ts[n - 1].store.births|
  }

  /** Without writes the next page starts where this one stopped. */
  lemma {:induction false} UnwrittenStays(ts: seq<Turn>, f: Filter, limit: nat, dim: nat, k: nat)
    requires IsScroll(ts, f, limit, dim) && Unwritten(ts) && k < |ts|
    ensures ts[k].store == ts[0].store && StartOf(ts[k]) == SlotStop(ts, f, limit, dim, k)
  {
    if k > 0 {
      UnwrittenStays(ts, f, limit, dim, k - 1);
      var t := ts[k - 1];
      assert Readable(t, dim) && Follows(ts, k, f, limit, dim);
      ResumeIsLive(t, f, limit, dim);
    }
  }

  lemma PageSlots(t: Turn, f: Filter, limit: nat, dim: nat)
    requires Readable(t, dim) && limit > 0
    ensures var d, p := t.store.data, PageOf(t, f, limit, dim);
      var stop := if p.resume.Some? then p.resume.value else |t.store.births|;
      && |d.ids| == |d.payloads| && StartOf(t) <= stop <= |d.ids|
      && MatchesIn(d, f, 0, StartOf(t)) + p.slots == MatchesIn(d, f, 0, stop)
  {
    var d, p := t.store.data, PageOf(t, f, limit, dim);
    assert Shape(d, dim);
    hide Valid;
    PageIsRange(d, f, StartOf(t), limit);
    MatchesPrefix(d, f, 0, StartOf(t), if p.resume.Some? then p.resume.value else |t.store.births|);
  }

  lemma {:induction false} UnwrittenSoFar(ts: seq<Turn>, f: Filter, limit: nat, dim: nat, n: nat)
    requires IsScroll(ts, f, limit, dim) && Unwritten(ts) && n <= |ts|
    ensures var d, stop := ts[0].store.data, SlotStop(ts, f, limit, dim, n);
      stop <= |d.ids| == |d.payloads| && SlotsOn(ts, f, limit, dim, n) == MatchesIn(d, f, 0, stop)
  {
    hide *;
    if n == 0 {
      NothingSoFar(ts, f, limit, dim);
    } else {
      UnwrittenSoFar(ts, f, limit, dim, n - 1);
      UnwrittenPage(ts, f, limit, dim, n - 1);
      SlotsNext(ts, f, limit, dim, n - 1);
    }
  }

  lemma NothingSoFar(ts: seq<Turn>, f: Filter, limit: nat, dim: nat)
    requires IsScroll(ts, f, limit, dim)
    ensures |ts[0].store.data.ids| == |ts[0].store.data.payloads| && SlotStop(ts, f, limit, dim, 0) == 0
    ensures SlotsOn(ts, f, limit, dim, 0) == MatchesIn(ts[0].store.data, f, 0, SlotStop(ts, f, limit, dim, 0))
  {
    assert Readable(ts[0], dim);
  }

  lemma SlotsNext(ts: seq<Turn>, f: Filter, limit: nat, dim: nat, n: nat)
    requires IsScroll(ts, f, limit, dim) && n < |ts|
    ensures SlotsOn(ts, f, limit, dim, n + 1) == SlotsOn(ts, f, limit, dim, n) + PageAt(ts, f, limit, dim, n).slots
  {
    hide IsScroll, PageAt;
  }

  lemma UnwrittenPage(ts: seq<Turn>, f: Filter, limit: nat, dim: nat, n: nat)
    requires IsScroll(ts, f, limit, dim) && Unwritten(ts) && n < |ts|
    ensures var d, was, stop := ts[0].store.data, SlotStop(ts, f, limit, dim, n), SlotStop(ts, f, limit, dim, n + 1);
      && |d.ids| == |d.payloads| == |ts[0].store.births| && was <= stop <= |d.ids|
      && MatchesIn(d, f, 0, was) + PageAt(ts, f, limit, dim, n).slots == MatchesIn(d, f, 0, stop)
  {
    UnwrittenStays(ts, f, limit, dim, n);
    assert Readable(ts[n], dim);
    hide IsScroll, Unwritten, Valid;
    PageSlots(ts[n], f, limit, dim);
  }

  lemma UnwrittenEnd(ts: seq<Turn>, f: Filter, limit: nat, dim: nat)
    requires IsScroll(ts, f, limit, dim) && Unwritten(ts) && PageOf(ts[|ts| - 1], f, limit, dim).resume.None?
    ensures Aged(ts[0].store, dim) && SlotStop(ts, f, limit, dim, |ts|) == |ts[0].store.data.ids|
  {
    UnwrittenStays(ts, f, limit, dim, |ts| - 1);
    assert Readable(ts[0], dim);
    hide IsScroll, Unwritten, Valid, PageFrom;
  }

  /** With no writes the pages joined are the matching live points in slot order. */
  lemma UnchangedScroll(ts: seq<Turn>, f: Filter, limit: nat, dim: nat)
    requires IsScroll(ts, f, limit, dim) && Unwritten(ts) && PageOf(ts[|ts| - 1], f, limit, dim).resume.None?
    ensures Aged(ts[0].store, dim)
    ensures PointsAt(ts[0].store.data, dim, SlotsOn(ts, f, limit, dim, |ts|), Chosen(Points(ts[0].store.data, dim), f))
  {
    var d := ts[0].store.data;
    UnwrittenEnd(ts, f, limit, dim);
    AgedShape(ts[0].store, dim);
    assert Points(d, dim) == PointsBelow(d, dim, |d.ids|);
    hide *;
    UnwrittenSoFar(ts, f, limit, dim, |ts|);
    MatchesArePoints(d, f, dim, |d.ids|);
  }

  // ----- two failing scrolls ------------------------------------------------

  /** A new store filled with points, in the order of their births. */
  function Filled(l: seq<Point>, dim: nat): Store
    requires forall i :: 0 <= i < |l| ==> |l[i].vector| == dim
  {
    EmptyValid(DotProduct, map[], dim);
    Store(UpsertedAll(EmptyData(DotProduct, map[]), l, dim), seq(|l|, i => i), |l|)
  }

  lemma FilledData(l: seq<Point>, d: Data, dim: nat)
    requires DistinctIds(l) && forall i :: 0 <= i < |l| ==> |l[i].vector| == dim
    requires Valid(EmptyData(DotProduct, map[]), dim) && d == UpsertedAll(EmptyData(DotProduct, map[]), l, dim)
    ensures Valid(d, dim) && Newest(d) && |d.ids| == |l|
    ensures forall i :: 0 <= i < |l| ==> Live(d, i) && PointAt(d, dim, i) == l[i]
  {
    var empty := EmptyData(DotProduct, map[]);
    EmptyValid(DotProduct, map[], dim);
    UpsertAllRefines(empty, l, dim);
    assert [] + l == l;
    PutAllFresh([], l);
    FreshUpsertsLeaveNoTombstone(empty, l, dim);
    hide UpsertedAll, Valid, Shape;
    SlotsPartition(d, dim);
    assert |d.tombstones| == 0;
    NoTombstones(d, dim);
    AllLivePoints(d, dim, |d.ids|);
  }

  lemma FilledFacts(l: seq<Point>, dim: nat)
    requires DistinctIds(l) && forall i :: 0 <= i < |l| ==> |l[i].vector| == dim
    ensures var s := Filled(l, dim);
      && Aged(s, dim) && Newest(s.data) && |s.births| == |l|
      && forall i :: 0 <= i < |l| ==> Live(s.data, i) && PointAt(s.data, dim, i) == l[i]
  {
    hide Valid, Newest, UpsertedAll, Live, PointAt, DistinctIds;
    EmptyValid(DotProduct, map[], dim);
    FilledData(l, Filled(l, dim).data, dim);
  }

  function Counting(lo: nat, hi: nat): (r: seq<nat>)
    requires lo <= hi
    ensures |r| == hi - lo && forall i :: 0 <= i < hi - lo ==> r[i] == lo + i
  {
    seq(hi - lo, i requires 0 <= i < hi - lo => lo + i)
  }

  lemma {:induction false} AllMatch(d: Data, f: Filter, hi: nat)
    requires hi <= |d.ids| == |d.payloads| && forall i :: 0 <= i < hi ==> Matching(d, f, i)
    ensures MatchesIn(d, f, 0, hi) == Counting(0, hi)
  {
    hide Matching;
    if hi > 0 {
      AllMatch(d, f, hi - 1);
      assert Counting(0, hi) == Counting(0, hi - 1) + [hi - 1];
    }
  }

  lemma FilledMatches(l: seq<Point>, s: Store, dim: nat, f: Filter)
    requires Aged(s, dim) && |s.births| == |l| && forall i :: 0 <= i < |l| ==> f.Matches(l[i].payload)
    requires forall i :: 0 <= i < |l| ==> Live(s.data, i) && PointAt(s.data, dim, i) == l[i]
    ensures |s.data.ids| == |s.data.payloads| == |l|
    ensures forall i :: 0 <= i < |l| ==> Matching(s.data, f, i) && s.data.ids[i] == l[i].id
  {
    AgedShape(s, dim);
    hide Valid, Shape, Aged, Live;
    assert |s.data.payloads| == |s.data.ids|;
    forall i | 0 <= i < |l| ensures Matching(s.data, f, i) && s.data.ids[i] == l[i].id {
      assert PointAt(s.data, dim, i) == l[i];
    }
  }

  /** A filled store whose points all match, and the first page of a scroll over it. */
  lemma FilledPage(l: seq<Point>, dim: nat, f: Filter, limit: nat)
    requires DistinctIds(l) && forall i :: 0 <= i < |l| ==> |l[i].vector| == dim && f.Matches(l[i].payload)
    requires 0 < limit < |l|
    ensures var s := Filled(l, dim);
      && Aged(s, dim) && Newest(s.data) && |s.data.ids| == |s.data.payloads| == |s.births| == |l|
      && (forall i :: 0 <= i < |l| ==> Live(s.data, i) && Matching(s.data, f, i) && s.data.ids[i] == l[i].id)
      && PageFrom(s.data, f, 0, limit) == Page(Counting(0, limit), Some(limit))
  {
    FilledFacts(l, dim);
    hide *;
    FilledMatches(l, Filled(l, dim), dim, f);
    FirstPage(Filled(l, dim).data, f, limit);
  }

  /** The first page when everything matches. */
  lemma FirstPage(d: Data, f: Filter, limit: nat)
    requires 0 < limit <= |d.ids| == |d.payloads| && forall i :: 0 <= i < |d.ids| ==> Matching(d, f, i)
    ensures PageFrom(d, f, 0, limit) == Page(Counting(0, limit), if limit < |d.ids| then Some(limit) else None)
  {
    AllMatch(d, f, |d.ids|);
    hide Matching, MatchesIn;
    if limit < |d.ids| {
      assert Counting(0, |d.ids|)[..limit] == Counting(0, limit);
    }
  }

  /** Two points, pages of one, and the first upserted between the pages: the second,
      which is there and matches all the time, is on no page. */
  lemma SkippedExample(a: Point, b: Point, a2: Point, dim: nat, f: Filter)
    requires a.id != b.id && a2.id == a.id && |a.vector| == |b.vector| == |a2.vector| == dim
    requires f.Matches(a.payload) && f.Matches(b.payload)
    ensures var ws := [Upserts(a2)];
      var s := Filled([a, b], dim);
      && Aged(s, dim) && AllFit(ws, dim)
      && var ts := [Turn(s, None, []), Turn(WrittenAll(s, ws, dim), Some(a.id), ws)];
      && IsDone(ts, f, 1, dim)
      && 1 in InTheEnd(ts, f, 1, dim) && Returned(ts, f, 1, dim, 2) == [0]
  {
    var l := [a, b];
    var s := Filled(l, dim);
    assert s.births == [0, 1] && s.next == 2;
    assert forall i :: 0 <= i < |l| ==> |l[i].vector| == dim && f.Matches(l[i].payload);
    assert DistinctIds(l) && Counting(0, 1) == [0];
    hide Filled, DistinctIds, Valid, Newest, PageFrom, Aged, Live, Counting;
    FilledPage(l, dim, f, 1);
    SkippedRun(s, a.id, a2, dim, f);
  }

  lemma SkippedRun(s: Store, cursor: string, a2: Point, dim: nat, f: Filter)
    requires Aged(s, dim) && Newest(s.data) && |s.births| == 2 && s.births == [0, 1] && s.next == 2
    requires s.data.ids[0] == cursor == a2.id != s.data.ids[1] && |a2.vector| == dim
    requires PageFrom(s.data, f, 0, 1) == Page([0], Some(1)) && Live(s.data, 1)
    requires |s.data.payloads| == |s.data.ids| && Matching(s.data, f, 1)
    ensures var ws := [Upserts(a2)];
      && AllFit(ws, dim)
      && var ts := [Turn(s, None, []), Turn(WrittenAll(s, ws, dim), Some(cursor), ws)];
      && IsDone(ts, f, 1, dim)
      && 1 in InTheEnd(ts, f, 1, dim) && Returned(ts, f, 1, dim, 2) == [0]
  {
    var ws := [Upserts(a2)];
    assert AllFit(ws, dim) && |s.data.ids| == 2 && f.Matches(s.data.payloads[1]);
    hide *;
    SecondPage(s, WrittenAll(s, ws, dim), cursor, a2, dim, f);
    assert [0][|[0]| - 1] == 0;
    TwoPages(s, ws, WrittenAll(s, ws, dim), cursor, 3, f, 1, dim, [0], []);
    assert BirthsAt(s.births, [0]) == [0] by {
      BirthsOfOne(s.births);
    }
    assert |BirthsAt(WrittenAll(s, ws, dim).births, [])| == 0;
  }

  lemma BirthsOfOne(a: seq<nat>)
    requires a == [0, 1]
    ensures BirthsAt(a, [0]) == [0]
  {
  }

  lemma SecondPage(s: Store, t: Store, cursor: string, p: Point, dim: nat, f: Filter)
    requires Aged(s, dim) && Newest(s.data) && s.births == [0, 1] && s.next == 2 && |s.data.payloads| == |s.data.ids|
    requires cursor == p.id != s.data.ids[1] && |p.vector| == dim && Live(s.data, 1) && f.Matches(s.data.payloads[1])
    requires AllFit([Upserts(p)], dim) && t == WrittenAll(s, [Upserts(p)], dim)
    ensures |t.births| == |t.data.ids| == |t.data.payloads| == 3 && t.births[1] == 1
    ensures StartSlot(t.data, Some(cursor)) == 3 && PageFrom(t.data, f, 3, 1) == Page([], None)
    ensures Shape(t.data, dim) && 1 in AllWanted(t, dim, f)
  {
    var ws := [Upserts(p)];
    assert ws[..0] == [] && WrittenAll(s, ws[..0], dim) == s && t == Written(s, ws[0], dim);
    assert ws[0].Upserts? && ws[0].point.id == cursor && Compactless(ws) && !Spares(ws, cursor);
    AgedShape(s, dim);
    AgedShape(t, dim);
    hide WrittenAll, Valid, Newest, Upserted, Shape, Spares, Compactless;
    UpsertedSlots(s, p, dim);
    StillMatches(s, t, p, dim, f);
    StartMovesIff(s, ws, dim, cursor, f, 1);
    assert WantedAt(t, f, 1, 1);
    assert Wanted(t, dim, f, 1);
  }

  lemma StillMatches(s: Store, t: Store, p: Point, dim: nat, f: Filter)
    requires Aged(s, dim) && |p.vector| == dim && t == Written(s, Upserts(p), dim) && |s.births| == 2
    requires Live(s.data, 1) && s.data.ids[1] != p.id && |s.data.payloads| == |s.data.ids|
    requires f.Matches(s.data.payloads[1])
    ensures |t.data.payloads| == |t.data.ids| == 3 && Matching(t.data, f, 1)
  {
    UpsertKeeps(s.data, p, dim);
    AgedShape(s, dim);
    assert Shape(t.data, dim);
    hide Valid, Upserted;
    assert PointAt(t.data, dim, 1) == PointAt(s.data, dim, 1);
  }

  /** Three points, pages of two, and between them the second is deleted and the
      collection compacted: the next page begins anew and repeats the first. */
  lemma RepeatedExample(a: Point, b: Point, c: Point, dim: nat, f: Filter)
    requires DistinctIds([a, b, c]) && |a.vector| == |b.vector| == |c.vector| == dim
    requires f.Matches(a.payload) && f.Matches(b.payload) && f.Matches(c.payload)
    ensures var ws := [Deletes(b.id), Compacts(DotProduct)];
      var s := Filled([a, b, c], dim);
      && Aged(s, dim) && AllFit(ws, dim)
      && var ts := [Turn(s, None, []), Turn(WrittenAll(s, ws, dim), Some(b.id), ws)];
      && IsDone(ts, f, 2, dim) && Returned(ts, f, 2, dim, 2) == [0, 1] + [0, 2]
  {
    var l := [a, b, c];
    var s := Filled(l, dim);
    assert a.id != b.id && c.id != b.id by {
      assert l[0].id != l[1].id && l[1].id != l[2].id;
    }
    assert s.births == [0, 1, 2] && s.next == 3;
    assert forall i :: 0 <= i < |l| ==> |l[i].vector| == dim && f.Matches(l[i].payload);
    assert Counting(0, 2) == [0, 1];
    hide *;
    FilledPage(l, dim, f, 2);
    RepeatedRun(s, b.id, dim, f);
  }

  lemma RepeatedRun(s: Store, cursor: string, dim: nat, f: Filter)
    requires Aged(s, dim) && Newest(s.data) && s.births == [0, 1, 2] && s.next == 3 && |s.data.ids| == 3
    requires s.data.ids[0] != cursor && s.data.ids[1] == cursor && s.data.ids[2] != cursor
    requires |s.data.payloads| == |s.data.ids| && forall i :: 0 <= i < 3 ==> Live(s.data, i) && Matching(s.data, f, i)
    requires PageFrom(s.data, f, 0, 2) == Page([0, 1], Some(2))
    ensures var ws := [Deletes(cursor), Compacts(DotProduct)];
      && AllFit(ws, dim)
      && var ts := [Turn(s, None, []), Turn(WrittenAll(s, ws, dim), Some(cursor), ws)];
      && IsDone(ts, f, 2, dim) && Returned(ts, f, 2, dim, 2) == [0, 1] + [0, 2]
  {
    var ws := [Deletes(cursor), Compacts(DotProduct)];
    assert AllFit(ws, dim);
    hide *;
    RestartedPage(s, WrittenAll(s, ws, dim), cursor, dim, f);
    assert [0, 1][|[0, 1]| - 1] == 1;
    TwoPages(s, ws, WrittenAll(s, ws, dim), cursor, 0, f, 2, dim, [0, 1], [0, 1]);
    BirthsOfTwo(s.births, WrittenAll(s, ws, dim).births);
  }

  lemma BirthsOfTwo(a: seq<nat>, b: seq<nat>)
    requires a == [0, 1, 2] && b == [0, 2]
    ensures BirthsAt(a, [0, 1]) == [0, 1] && BirthsAt(b, [0, 1]) == [0, 2]
  {
  }

  lemma RestartedPage(s: Store, t: Store, cursor: string, dim: nat, f: Filter)
    requires Aged(s, dim) && Newest(s.data) && s.births == [0, 1, 2] && |s.data.ids| == 3
    requires s.data.ids[0] != cursor && s.data.ids[1] == cursor && s.data.ids[2] != cursor && s.next == 3
    requires |s.data.payloads| == |s.data.ids| && forall i :: 0 <= i < 3 ==> Live(s.data, i) && Matching(s.data, f, i)
    requires var ws := [Deletes(cursor), Compacts(DotProduct)];
      AllFit(ws, dim) && t == WrittenAll(s, ws, dim)
    ensures |t.births| == |t.data.ids| == |t.data.payloads| && t.births == [0, 2]
    ensures StartSlot(t.data, Some(cursor)) == 0 && PageFrom(t.data, f, 0, 2) == Page([0, 1], None)
  {
    var ws := [Deletes(cursor), Compacts(DotProduct)];
    CursorLost(cursor);
    hide Valid, Newest, Compacted, Deleted, MatchesIn, Matching, FateOf;
    NextStart(s, ws, dim, cursor, 1);
    TwoLeft(s, t, cursor, dim);
    WritesEvolve(s, ws, dim);
    AgedShape(t, dim);
    hide WrittenAll, Evolves;
    AllStillMatch(s, t, dim, f);
    FirstPage(t.data, f, 2);
    assert Counting(0, 2) == [0, 1];
  }

  lemma CursorLost(cursor: string)
    ensures FateOf([Deletes(cursor), Compacts(DotProduct)], cursor).Lost?
  {
    var ws := [Deletes(cursor), Compacts(DotProduct)];
    assert ws[..1] == [Deletes(cursor)] && ws[..1][..0] == [];
    assert FateOf(ws[..1], cursor) == Stays(false);
  }

  lemma TwoLeft(s: Store, t: Store, cursor: string, dim: nat)
    requires Aged(s, dim) && s.births == [0, 1, 2] && forall i :: 0 <= i < 3 ==> Live(s.data, i)
    requires |s.data.ids| == 3 && s.data.ids[0] != cursor && s.data.ids[1] == cursor && s.data.ids[2] != cursor
    requires var ws := [Deletes(cursor), Compacts(DotProduct)];
      AllFit(ws, dim) && t == WrittenAll(s, ws, dim)
    ensures Aged(t, dim) && t.births == [0, 2] && forall k :: 0 <= k < 2 ==> Live(t.data, k)
  {
    var mid := Written(s, Deletes(cursor), dim);
    TwoWrites(s, Deletes(cursor), Compacts(DotProduct), dim);
    DeleteKeeps(s.data, cursor, dim);
    WrittenFacts(s, Deletes(cursor), dim);
    hide Valid, Compacted, Deleted, Newest, WrittenAll, Evolves, Keeps, Increasing;
    CompactionFacts(mid, dim, DotProduct);
    ThreeBirths(mid.data);
    hide LiveBirths;
  }

  lemma TwoWrites(s: Store, v: Write, w: Write, dim: nat)
    requires Aged(s, dim) && AllFit([v, w], dim)
    ensures Fits(v, dim) && Aged(Written(s, v, dim), dim)
    ensures WrittenAll(s, [v, w], dim) == Written(Written(s, v, dim), w, dim)
  {
    var ws := [v, w];
    assert ws[0] == v && ws[1] == w && ws[..1] == [v] && ws[..1][..0] == [];
    WrittenFacts(s, v, dim);
    hide Valid, Written;
    assert WrittenAll(s, ws[..1][..0], dim) == s && WrittenAll(s, ws[..1], dim) == Written(s, v, dim);
  }

  lemma ThreeBirths(d: Data)
    requires |d.ids| == 3 && Live(d, 0) && !Live(d, 1) && Live(d, 2)
    ensures LiveBirths(d, [0, 1, 2], 3) == [0, 2]
  {
    hide Live;
    assert LiveBirths(d, [0, 1, 2], 1) == [0];
    assert LiveBirths(d, [0, 1, 2], 2) == [0];
  }

  /** Where everything matches, what is left of it matches. */
  lemma AllStillMatch(s: Store, t: Store, dim: nat, f: Filter)
    requires Aged(s, dim) && Aged(t, dim) && Evolves(s, t, dim)
    requires |s.data.payloads| == |s.data.ids| && forall i :: 0 <= i < |s.data.ids| ==> Matching(s.data, f, i)
    requires forall k :: 0 <= k < |t.births| ==> Live(t.data, k) && t.births[k] < s.next
    ensures |t.data.payloads| == |t.data.ids| && forall k :: 0 <= k < |t.data.ids| ==> Matching(t.data, f, k)
  {
    AgedShape(s, dim);
    AgedShape(t, dim);
    assert |t.data.payloads| == |t.data.ids|;
    hide Valid, Shape, Increasing;
    forall k | 0 <= k < |t.data.ids| ensures Matching(t.data, f, k) {
      var b, p := t.births[k], PointAt(t.data, dim, k);
      assert Holds(t, dim, k, b, p);
      assert Held(t, dim, b, p);
      var i: nat :| Holds(s, dim, i, b, p);
      assert Matching(s.data, f, i);
    }
  }

  /** A scroll of two pages: what the second is read from, and what both return. */
  lemma TwoPages(
    s: Store, ws: seq<Write>, t: Store, cursor: string, start: nat, f: Filter, limit: nat, dim: nat,
    first: seq<nat>, second: seq<nat>)
    requires limit > 0 && Aged(s, dim) && Newest(s.data) && AllFit(ws, dim) && t == WrittenAll(s, ws, dim)
    requires |first| > 0 && first[|first| - 1] < |s.data.ids| && s.data.ids[first[|first| - 1]] == cursor
    requires |s.data.ids| == |s.data.payloads|
    requires PageFrom(s.data, f, 0, limit) == Page(first, Some(first[|first| - 1] + 1))
    requires start <= |t.data.ids| == |t.data.payloads| && StartSlot(t.data, Some(cursor)) == start
    requires PageFrom(t.data, f, start, limit) == Page(second, None)
    ensures IsDone([Turn(s, None, []), Turn(t, Some(cursor), ws)], f, limit, dim)
    ensures Aged(t, dim)
    ensures InTheEnd([Turn(s, None, []), Turn(t, Some(cursor), ws)], f, limit, dim) == AllWanted(t, dim, f)
    ensures Returned([Turn(s, None, []), Turn(t, Some(cursor), ws)], f, limit, dim, 2) ==
      BirthsAt(s.births, first) + BirthsAt(t.births, second)
  {
    var u, v := Turn(s, None, []), Turn(t, Some(cursor), ws);
    AtFirst(s.data);
    hide *;
    AgedShape(s, dim);
    AgedShape(t, dim);
    TurnPage(u, f, limit, dim, 0);
    TurnPage(v, f, limit, dim, start);
    TurnResumes(u, v, f, limit, dim);
    TwoTurns(u, v, f, limit, dim);
  }

  lemma AtFirst(d: Data)
    ensures StartSlot(d, None) == 0
  {
  }

  lemma TurnResumes(t: Turn, u: Turn, f: Filter, limit: nat, dim: nat)
    requires Readable(t, dim) && limit > 0 && AllFit(u.since, dim) && Aged(t.store, dim)
    requires var p := PageOf(t, f, limit, dim);
      && p.resume.Some? && 0 < p.resume.value <= |t.store.data.ids|
      && u.after == Some(t.store.data.ids[p.resume.value - 1])
    requires u.store == WrittenAll(t.store, u.since, dim)
    ensures TurnFollows(t, u, f, limit, dim)
  {
    hide Readable, PageOf, AllFit, Aged, WrittenAll;
  }

  lemma TurnPage(t: Turn, f: Filter, limit: nat, dim: nat, start: nat)
    requires Aged(t.store, dim) && limit > 0 && StartSlot(t.store.data, t.after) == start <= |t.store.births|
    requires |t.store.data.ids| == |t.store.data.payloads| == |t.store.births|
    ensures Readable(t, dim) && PageOf(t, f, limit, dim) == PageFrom(t.store.data, f, start, limit)
  {
    hide Aged, StartSlot, PageFrom;
  }

  lemma TwoTurns(t: Turn, u: Turn, f: Filter, limit: nat, dim: nat)
    requires limit > 0 && t.after.None? && Readable(t, dim) && Readable(u, dim) && Newest(t.store.data)
    requires TurnFollows(t, u, f, limit, dim) && PageOf(u, f, limit, dim).resume.None? && Shape(u.store.data, dim)
    requires |u.store.births| == |u.store.data.ids|
    ensures IsDone([t, u], f, limit, dim) && InTheEnd([t, u], f, limit, dim) == AllWanted(u.store, dim, f)
    ensures Returned([t, u], f, limit, dim, 2) ==
      BirthsAt(t.store.births, PageOf(t, f, limit, dim).slots) +
      BirthsAt(u.store.births, PageOf(u, f, limit, dim).slots)
  {
    var ts := [t, u];
    hide Readable, TurnFollows, Newest, PageOf, AllWanted, Shape;
    assert Follows(ts, 1, f, limit, dim);
    hide Follows;
    assert IsScroll(ts, f, limit, dim);
    hide BirthsAt;
    assert Returned(ts, f, limit, dim, 0) == [];
    assert Returned(ts, f, limit, dim, 1) == BirthsOn(ts, f, limit, dim, 0);
  }
}
