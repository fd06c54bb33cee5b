/** Crash recovery (`apply_wal_entry` in crates/veclite/src/database.rs): folding
    the journal over the last checkpoint rebuilds what the live path had. */
module Recovery {
  import opened Core
  import opened Collections
  import opened Linear
  import opened PayloadIndex
  import Postings
  import Slots
  import opened Registry

  // ----- what is recovered --------------------------------------------------

  /** A collection as its users see it: identity, own aliases, configuration,
      live points in order, declared indexes. */
  datatype View = View(id: nat, aliases: seq<string>, config: Config, points: seq<Point>, kinds: map<string, IndexKind>)

  type Views = map<string, View>

  function PointsOf(c: Coll): seq<Point> {
    Slots.Points(c.data, c.config.dimension)
  }

  function Shown(c: Coll): View {
    View(c.id, c.aliases, c.config, PointsOf(c), Kinds(c.data.indexes))
  }

  function ViewsOf(colls: map<string, Coll>): Views {
    Each(colls, Shown)
  }

  function ViewId(w: View): nat {
    w.id
  }

  function ViewIds(v: Views): map<string, nat> {
    Each(v, ViewId)
  }

  lemma SameIds(colls: map<string, Coll>)
    ensures ViewIds(ViewsOf(colls)) == IdsOf(colls)
  {
  }

  // ----- what one journal entry means ---------------------------------------

  /** The meaning of an entry for the collection it names. */
  function Changed(env: Env, w: View, body: Body): View
    requires body.UpsertPoints? ==> PrepareAll(w.config, env.sqrt, body.points, true).Success?
  {
    match body
    case UpsertPoints(points) =>
      w.(points := Slots.PutAll(w.points, PrepareAll(w.config, env.sqrt, points, true).value))
    case DeleteIds(ids) => w.(points := Slots.WithoutAll(w.points, ids))
    case SetAlias(create, alias) => w.(aliases := if create then w.aliases + [alias] else Retained(w.aliases, alias))
    case DeclareKey(key, kind) => w.(kinds := if key in w.kinds then w.kinds else w.kinds[key := kind])
    case _ => w
  }

  function NewView(body: Body, id: nat): View
    requires body.CreateColl?
  {
    View(id, body.aliases, body.config, [], map[])
  }

  /** An entry that the live path can have written in this state. */
  ghost predicate Admissible(env: Env, v: Views, e: Entry) {
    var at := NameOf(ViewIds(v), e.collId);
    match e.body
    case CreateColl(name, aliases, config) => at.None? && name !in v && aliases == [] && Buildable(config)
    case Rename(newName) => at.Some? && newName !in v
    case UpsertPoints(points) => at.Some? && PrepareAll(v[at.value].config, env.sqrt, points, true).Success?
    case _ => at.Some?
  }

  ghost function Applied(env: Env, v: Views, e: Entry): Views
    requires Admissible(env, v, e)
  {
    var at := NameOf(ViewIds(v), e.collId);
    match e.body
    case CreateColl(name, _, _) => v[name := NewView(e.body, e.collId)]
    case DropColl => v - {at.value}
    case Rename(newName) => (v - {at.value})[newName := v[at.value]]
    case _ => v[at.value := Changed(env, v[at.value], e.body)]
  }

  // ----- replay -------------------------------------------------------------

  function ReplayedColl(env: Env, c: Coll, body: Body): Result<Coll, Error> {
    match body
    case UpsertPoints(points) =>
      var prepared := PrepareAll(c.config, env.sqrt, points, true);
      if prepared.Failure? then Failure(prepared.error) else Success(WithPoints(env, c, points, true))
    case DeleteIds(ids) => Success(WithoutIds(c, ids))
    case SetAlias(create, alias) =>
      Success(c.(aliases := if create then c.aliases + [alias] else Retained(c.aliases, alias)))
    case DeclareKey(key, kind) => Success(WithIndex(c, key, kind))
    case _ => Success(c)
  }

  function ReplayedAlias(aliases: map<string, string>, body: Body, name: string): map<string, string> {
    if !body.SetAlias? then aliases
    else if body.create then aliases[body.alias := name]
    else aliases - {body.alias}
  }

  /** Entries for collections that are not there are skipped, and creating one
      that is there is a no-op. */
  ghost function Replayed(env: Env, s: State, e: Entry): Result<State, Error> {
    var at := NameOf(IdsOf(s.colls), e.collId);
    if e.body.CreateColl? then
      var name, aliases, config := e.body.name, e.body.aliases, e.body.config;
      if at.Some? then Success(s)
      else if !Buildable(config) then Failure(InvalidArgument)
      else Success(s.(colls := s.colls[name := NewColl(name, aliases, config, e.collId, [])],
        aliases := Pointed(s.aliases, aliases, name)))
    else if at.None? then Success(s)
    else
      var name := at.value;
      var c := s.colls[name];
      if e.body.DropColl? then Success(s.(colls := s.colls - {name}))
      else if e.body.Rename? then Success(s.(colls := (s.colls - {name})[e.body.newName := c.(name := e.body.newName)]))
      else
        var r := ReplayedColl(env, c, e.body);
        if r.Failure? then Failure(r.error)
        else Success(s.(colls := s.colls[name := r.value], aliases := ReplayedAlias(s.aliases, e.body, name)))
  }

  ghost function ReplayedAll(env: Env, s: State, es: seq<Entry>): Result<State, Error> {
    if es == [] then Success(s)
    else
      var before := ReplayedAll(env, s, es[..|es| - 1]);
      if before.Failure? then before else Replayed(env, before.value, es[|es| - 1])
  }

  // ----- replay applies the meaning -----------------------------------------

  lemma WithPointsShows(env: Env, c: Coll, batch: seq<Point>, reserved: bool)
    requires PrepareAll(c.config, env.sqrt, batch, reserved).Success?
    ensures Shown(WithPoints(env, c, batch, reserved)) ==
            Shown(c).(points := Slots.PutAll(PointsOf(c), PrepareAll(c.config, env.sqrt, batch, reserved).value))
  {
    PreparedWidths(env, c.config, batch, reserved);
    Slots.UpsertAllRefines(c.data, PrepareAll(c.config, env.sqrt, batch, reserved).value, c.config.dimension);
  }

  lemma WithoutIdsShows(c: Coll, ids: seq<string>)
    ensures Shown(WithoutIds(c, ids)) == Shown(c).(points := Slots.WithoutAll(PointsOf(c), ids))
  {
    Slots.DeleteAllRefines(c.data, ids, c.config.dimension);
  }

  lemma WithIndexShows(env: Env, c: Coll, key: string, kind: IndexKind)
    ensures Shown(WithIndex(c, key, kind)) == Changed(env, Shown(c), DeclareKey(key, kind))
  {
    Slots.DeclareRefines(c.data, key, kind, c.config.dimension);
  }

  lemma CollReplays(env: Env, c: Coll, body: Body)
    requires body.UpsertPoints? ==> PrepareAll(c.config, env.sqrt, body.points, true).Success?
    ensures var r := ReplayedColl(env, c, body);
      && r.Success? && r.value.id == c.id && r.value.name == c.name
      && Shown(r.value) == Changed(env, Shown(c), body)
  {
    match body
    case UpsertPoints(points) => WithPointsShows(env, c, points, true);
    case DeleteIds(ids) => WithoutIdsShows(c, ids);
    case DeclareKey(key, kind) => WithIndexShows(env, c, key, kind);
    case _ =>
  }

  lemma NewCollShows(name: string, aliases: seq<string>, config: Config, id: nat, declared: seq<(string, IndexKind)>)
    ensures var c := NewColl(name, aliases, config, id, declared);
      c.name == name && Shown(c) == View(id, aliases, config, [], Kinds(Fresh(declared)))
  {
    FreshIsEmpty(declared);
    Slots.EmptyValid(config.metric, Fresh(declared), config.dimension);
  }

  lemma Updated(colls: map<string, Coll>, name: string, c: Coll)
    requires Keyed(colls) && c.name == name
    requires forall n :: n in IdsOf(colls) && n != name ==> IdsOf(colls)[n] != c.id
    ensures Keyed(colls[name := c])
    ensures ViewsOf(colls[name := c]) == ViewsOf(colls)[name := Shown(c)]
    ensures IdsOf(colls[name := c]) == IdsOf(colls)[name := c.id]
  {
    EachUpdate(colls, Shown, name, c);
    EachUpdate(colls, IdOf, name, c);
    EachUpdate(colls, OwnName, name, c);
    DistinctUpdate(IdsOf(colls), name, c.id);
  }

  lemma Without(colls: map<string, Coll>, name: string)
    requires Keyed(colls) && name in colls
    ensures Keyed(colls - {name})
    ensures ViewsOf(colls - {name}) == ViewsOf(colls) - {name}
    ensures IdsOf(colls - {name}) == IdsOf(colls) - {name}
  {
    EachUpdate(colls, Shown, name, colls[name]);
    EachUpdate(colls, IdOf, name, colls[name]);
    EachUpdate(colls, OwnName, name, colls[name]);
    DistinctRemove(IdsOf(colls), name);
  }

  /** Replaying an entry changes the visible collections as the entry means. */
  lemma ReplayStep(env: Env, s: State, e: Entry)
    requires Keyed(s.colls) && Admissible(env, ViewsOf(s.colls), e)
    ensures var r := Replayed(env, s, e);
      && r.Success? && Keyed(r.value.colls)
      && ViewsOf(r.value.colls) == Applied(env, ViewsOf(s.colls), e)
  {
    hide Slots.Valid;
    var colls := s.colls;
    SameIds(colls);
    var at := NameOf(IdsOf(colls), e.collId);
    if e.body.CreateColl? {
      var c := NewColl(e.body.name, e.body.aliases, e.body.config, e.collId, []);
      NewCollShows(e.body.name, e.body.aliases, e.body.config, e.collId, []);
      Updated(colls, e.body.name, c);
    } else if e.body.DropColl? {
      Without(colls, at.value);
    } else if e.body.Rename? {
      var c := colls[at.value].(name := e.body.newName);
      Without(colls, at.value);
      Updated(colls - {at.value}, e.body.newName, c);
    } else {
      var c := colls[at.value];
      CollReplays(env, c, e.body);
      Updated(colls, at.value, ReplayedColl(env, c, e.body).value);
    }
  }

  lemma NameOfKey(colls: map<string, Coll>, name: string)
    requires Keyed(colls) && name in colls
    ensures colls[name].name == name
  {
    assert Each(colls, OwnName)[name] == name;
  }

  lemma CollKeepsIdentity(env: Env, c: Coll, body: Body)
    ensures var r := ReplayedColl(env, c, body); r.Success? ==> r.value.id == c.id && r.value.name == c.name
  {
  }

  ghost predicate KeyedBelow(colls: map<string, Coll>, limit: nat) {
    Keyed(colls) && Below(IdsOf(colls), limit)
  }

  lemma UpdateKeepsKeyed(colls: map<string, Coll>, name: string, c: Coll, limit: nat)
    requires KeyedBelow(colls, limit) && c.name == name && c.id < limit
    requires forall n :: n in IdsOf(colls) && n != name ==> IdsOf(colls)[n] != c.id
    ensures KeyedBelow(colls[name := c], limit)
  {
    Updated(colls, name, c);
  }

  lemma RenameKeepsKeyed(colls: map<string, Coll>, from: string, to: string, limit: nat)
    requires KeyedBelow(colls, limit) && from in colls
    ensures KeyedBelow(colls - {from}, limit)
    ensures KeyedBelow((colls - {from})[to := colls[from].(name := to)], limit)
  {
    Without(colls, from);
    assert IdsOf(colls)[from] == colls[from].id;
    UpdateKeepsKeyed(colls - {from}, to, colls[from].(name := to), limit);
  }

  lemma OneKeepsKeyed(env: Env, colls: map<string, Coll>, name: string, body: Body, limit: nat)
    requires KeyedBelow(colls, limit) && name in colls
    ensures var r := ReplayedColl(env, colls[name], body); r.Success? ==> KeyedBelow(colls[name := r.value], limit)
  {
    var r := ReplayedColl(env, colls[name], body);
    CollKeepsIdentity(env, colls[name], body);
    NameOfKey(colls, name);
    assert IdsOf(colls)[name] == colls[name].id;
    if r.Success? {
      UpdateKeepsKeyed(colls, name, r.value, limit);
    }
  }

  /** Any entry, admissible or not, leaves names and ids consistent. */
  lemma ReplayKeepsKeyed(env: Env, s: State, e: Entry, limit: nat)
    requires KeyedBelow(s.colls, limit) && e.collId < limit
    ensures var r := Replayed(env, s, e); r.Success? ==> KeyedBelow(r.value.colls, limit)
  {
    var colls, at := s.colls, NameOf(IdsOf(s.colls), e.collId);
    if e.body.CreateColl? {
      if at.None? && Buildable(e.body.config) {
        UpdateKeepsKeyed(colls, e.body.name, NewColl(e.body.name, e.body.aliases, e.body.config, e.collId, []), limit);
      }
    } else if at.Some? {
      if e.body.DropColl? || e.body.Rename? {
        RenameKeepsKeyed(colls, at.value, if e.body.Rename? then e.body.newName else at.value, limit);
      } else {
        OneKeepsKeyed(env, colls, at.value, e.body, limit);
      }
    }
  }

  // ----- the meaning of a whole journal -------------------------------------

  /** `None` when some entry is not one the live path can have written there. */
  ghost function AppliedAll(env: Env, v: Views, es: seq<Entry>): Option<Views> {
    if es == [] then Some(v)
    else
      var before := AppliedAll(env, v, es[..|es| - 1]);
      if before.None? || !Admissible(env, before.value, es[|es| - 1]) then None
      else Some(Applied(env, before.value, es[|es| - 1]))
  }

  /** Replay gives every admissible journal its meaning. */
  lemma {:induction false} ReplayRefines(env: Env, s: State, es: seq<Entry>)
    requires Keyed(s.colls) && AppliedAll(env, ViewsOf(s.colls), es).Some?
    ensures var r := ReplayedAll(env, s, es);
      && r.Success? && Keyed(r.value.colls)
      && Some(ViewsOf(r.value.colls)) == AppliedAll(env, ViewsOf(s.colls), es)
  {
    hide Slots.Valid;
    if es != [] {
      ReplayRefines(env, s, es[..|es| - 1]);
      ReplayStep(env, ReplayedAll(env, s, es[..|es| - 1]).value, es[|es| - 1]);
    }
  }

  lemma {:induction false} AppliedJoin(env: Env, v: Views, a: seq<Entry>, b: seq<Entry>)
    ensures AppliedAll(env, v, a + b) ==
            (if AppliedAll(env, v, a).None? then None else AppliedAll(env, AppliedAll(env, v, a).value, b))
  {
    hide Slots.Valid;
    if b == [] {
      assert a + b == a;
    } else {
      AppliedJoin(env, v, a, b[..|b| - 1]);
      assert (a + b)[..|a + b| - 1] == a + b[..|b| - 1];
    }
  }

  lemma {:induction false} ReplayedJoin(env: Env, s: State, a: seq<Entry>, b: seq<Entry>)
    ensures ReplayedAll(env, s, a + b) ==
            (if ReplayedAll(env, s, a).Failure? then ReplayedAll(env, s, a)
              else ReplayedAll(env, ReplayedAll(env, s, a).value, b))
  {
    hide Slots.Valid;
    if b == [] {
      assert a + b == a;
    } else {
      ReplayedJoin(env, s, a, b[..|b| - 1]);
      assert (a + b)[..|a + b| - 1] == a + b[..|b| - 1];
    }
  }

  lemma AppliedOne(env: Env, v: Views, e: Entry)
    requires Admissible(env, v, e)
    ensures AppliedAll(env, v, [e]) == Some(Applied(env, v, e))
  {
    assert [e][..0] == [];
    assert AppliedAll(env, v, [e][..0]) == Some(v);
  }

  // ----- agreement up to what sealing and creation blur ---------------------

  /** Points as they come back from their segments: all but the sparse lanes is
      stored as it is, and lanes go through postings. */
  function Decoded(l: seq<Point>): (r: seq<Point>)
    ensures |r| == |l| && forall i :: 0 <= i < |l| ==> r[i] == l[i].(sparse := Postings.Normal(l[i].sparse))
  {
    seq(|l|, i requires 0 <= i < |l| => l[i].(sparse := Postings.Normal(l[i].sparse)))
  }

  /** The same collection: exactly, or up to sparse lanes without entries and the
      kinds of the declared indexes. */
  ghost predicate Same(exact: bool, a: View, b: View) {
    if exact then a == b
    else
      && a.id == b.id && a.aliases == b.aliases && a.config == b.config
      && Decoded(a.points) == Decoded(b.points) && a.kinds.Keys == b.kinds.Keys
  }

  ghost predicate Alike(exact: bool, v: Views, w: Views) {
    v.Keys == w.Keys && forall n :: n in v ==> Same(exact, v[n], w[n])
  }

  lemma AlikeIs(v: Views, w: Views)
    ensures Alike(true, v, w) <==> v == w
  {
  }

  lemma AlikeSelf(exact: bool, v: Views)
    ensures Alike(exact, v, v)
  {
  }

  lemma AlikeIds(exact: bool, v: Views, w: Views)
    requires Alike(exact, v, w)
    ensures ViewIds(v) == ViewIds(w)
  {
    forall n | n in v ensures v[n].id == w[n].id {
      assert Same(exact, v[n], w[n]);
    }
  }

  lemma AlikeJoins(exact: bool, v: Views, w: Views, x: Views)
    requires Alike(exact, v, w) && Alike(exact, w, x)
    ensures Alike(exact, v, x)
  {
    forall n | n in v ensures Same(exact, v[n], x[n]) {
      assert Same(exact, v[n], w[n]) && Same(exact, w[n], x[n]);
    }
  }

  lemma {:induction false} DecodedWithout(a: seq<Point>, b: seq<Point>, id: string)
    requires Decoded(a) == Decoded(b)
    ensures Decoded(Slots.Without(a, id)) == Decoded(Slots.Without(b, id))
  {
    if a != [] {
      var m, n := a[|a| - 1], b[|b| - 1];
      assert |Decoded(a)| == |a| && |Decoded(b)| == |b|;
      assert Decoded(a)[|a| - 1] == Decoded(b)[|b| - 1];
      assert Decoded(a[..|a| - 1]) == Decoded(a)[..|a| - 1] && Decoded(b[..|b| - 1]) == Decoded(b)[..|b| - 1];
      DecodedWithout(a[..|a| - 1], b[..|b| - 1], id);
      if m.id != id {
        DecodedSnoc(Slots.Without(a[..|a| - 1], id), Slots.Without(b[..|b| - 1], id), m, n);
      }
    } else {
      assert b == [] by {
        assert |Decoded(a)| == 0 && |Decoded(b)| == |b|;
      }
    }
  }

  lemma DecodedSnoc(a: seq<Point>, b: seq<Point>, p: Point, q: Point)
    requires Decoded(a) == Decoded(b) && Decoded([p]) == Decoded([q])
    ensures Decoded(a + [p]) == Decoded(b + [q])
  {
    assert |Decoded(a)| == |a| && |Decoded(b)| == |b|;
    assert Decoded([p])[0] == Decoded([q])[0];
    forall i | 0 <= i < |a| ensures Decoded(a + [p])[i] == Decoded(b + [q])[i] {
      assert Decoded(a)[i] == Decoded(b)[i];
    }
  }

  lemma {:induction false} DecodedPutAll(a: seq<Point>, b: seq<Point>, batch: seq<Point>)
    requires Decoded(a) == Decoded(b)
    ensures Decoded(Slots.PutAll(a, batch)) == Decoded(Slots.PutAll(b, batch))
  {
    if batch != [] {
      var front, last := batch[..|batch| - 1], batch[|batch| - 1];
      DecodedPutAll(a, b, front);
      DecodedWithout(Slots.PutAll(a, front), Slots.PutAll(b, front), last.id);
      DecodedSnoc(
        Slots.Without(Slots.PutAll(a, front), last.id), Slots.Without(Slots.PutAll(b, front), last.id), last, last);
    }
  }

  lemma {:induction false} DecodedWithoutAll(a: seq<Point>, b: seq<Point>, ids: seq<string>)
    requires Decoded(a) == Decoded(b)
    ensures Decoded(Slots.WithoutAll(a, ids)) == Decoded(Slots.WithoutAll(b, ids))
  {
    if ids != [] {
      DecodedWithoutAll(a, b, ids[..|ids| - 1]);
      DecodedWithout(Slots.WithoutAll(a, ids[..|ids| - 1]), Slots.WithoutAll(b, ids[..|ids| - 1]), ids[|ids| - 1]);
    }
  }

  lemma ChangedSame(exact: bool, env: Env, a: View, b: View, body: Body)
    requires Same(exact, a, b)
    requires body.UpsertPoints? ==> PrepareAll(a.config, env.sqrt, body.points, true).Success?
    ensures Same(exact, Changed(env, a, body), Changed(env, b, body))
  {
    if !exact {
      match body
      case UpsertPoints(points) =>
        DecodedPutAll(a.points, b.points, PrepareAll(a.config, env.sqrt, points, true).value);
      case DeleteIds(ids) => DecodedWithoutAll(a.points, b.points, ids);
      case _ =>
    }
  }

  /** An entry means the same for views that agree. */
  lemma AppliedAlike(exact: bool, env: Env, v: Views, w: Views, e: Entry)
    requires Alike(exact, v, w) && Admissible(env, v, e)
    ensures Admissible(env, w, e) && Alike(exact, Applied(env, v, e), Applied(env, w, e))
  {
    AlikeIds(exact, v, w);
    var at := NameOf(ViewIds(v), e.collId);
    if at.Some? {
      assert Same(exact, v[at.value], w[at.value]);
      if Changes(e.body) {
        ChangedSame(exact, env, v[at.value], w[at.value], e.body);
      }
    }
  }

  /** Entries that change one collection in place. */
  predicate Changes(body: Body) {
    !body.CreateColl? && !body.DropColl? && !body.Rename?
  }

  lemma {:induction false} AppliedAllAlike(exact: bool, env: Env, v: Views, w: Views, es: seq<Entry>)
    requires Alike(exact, v, w) && AppliedAll(env, v, es).Some?
    ensures var a, b := AppliedAll(env, v, es), AppliedAll(env, w, es);
      b.Some? && Alike(exact, a.value, b.value)
  {
    if es != [] {
      AppliedAllAlike(exact, env, v, w, es[..|es| - 1]);
      AppliedAlike(exact, env, AppliedAll(env, v, es[..|es| - 1]).value, AppliedAll(env, w, es[..|es| - 1]).value,
                   es[|es| - 1]);
    }
  }

  /** One more run of entries, seen from views that agree. */
  lemma AppliedOnward(exact: bool, env: Env, v: Views, es: seq<Entry>, w: Views, more: seq<Entry>, x: Views)
    requires AppliedAll(env, v, es).Some? && Alike(exact, AppliedAll(env, v, es).value, w)
    requires AppliedAll(env, w, more).Some? && Alike(exact, AppliedAll(env, w, more).value, x)
    ensures AppliedAll(env, v, es + more).Some? && Alike(exact, AppliedAll(env, v, es + more).value, x)
  {
    var u := AppliedAll(env, v, es).value;
    AppliedJoin(env, v, es, more);
    AlikeTurns(exact, u, w);
    AppliedAllAlike(exact, env, w, u, more);
    var a, b := AppliedAll(env, u, more).value, AppliedAll(env, w, more).value;
    AlikeTurns(exact, b, a);
    AlikeJoins(exact, a, b, x);
  }

  lemma AlikeTurns(exact: bool, v: Views, w: Views)
    requires Alike(exact, v, w)
    ensures Alike(exact, w, v)
  {
    forall n | n in w ensures Same(exact, w[n], v[n]) {
      assert Same(exact, v[n], w[n]);
    }
  }

  // ----- declarations made at creation --------------------------------------

  /** Replay declares the keys one by one: the first kind of a key stays. */
  function InTurn(declared: seq<(string, IndexKind)>): map<string, IndexKind> {
    if declared == [] then map[]
    else
      var before, last := InTurn(declared[..|declared| - 1]), declared[|declared| - 1];
      if last.0 in before then before else before[last.0 := last.1]
  }

  ghost predicate IsFirst(declared: seq<(string, IndexKind)>, i: nat)
    requires i < |declared|
  {
    forall k :: 0 <= k < i ==> declared[k].0 != declared[i].0
  }

  ghost predicate IsLast(declared: seq<(string, IndexKind)>, j: nat)
    requires j < |declared|
  {
    forall k :: j < k < |declared| ==> declared[k].0 != declared[j].0
  }

  /** The first and the last declaration of every key name the same kind. */
  ghost predicate FirstIsLast(declared: seq<(string, IndexKind)>) {
    forall i, j ::
      0 <= i <= j < |declared| && declared[i].0 == declared[j].0 && IsFirst(declared, i) && IsLast(declared, j) ==>
        declared[i].1 == declared[j].1
  }

  lemma {:induction false} DeclaredAt(declared: seq<(string, IndexKind)>, key: string) returns (n: nat)
    requires key in InTurn(declared)
    ensures n < |declared| && declared[n].0 == key
  {
    if declared[|declared| - 1].0 == key {
      n := |declared| - 1;
    } else {
      n := DeclaredAt(declared[..|declared| - 1], key);
    }
  }

  lemma {:induction false} SameKeys(declared: seq<(string, IndexKind)>)
    ensures InTurn(declared).Keys == Fresh(declared).Keys
  {
    if declared != [] {
      SameKeys(declared[..|declared| - 1]);
    }
  }

  lemma {:induction false} InTurnReadsFirst(declared: seq<(string, IndexKind)>, i: nat)
    requires i < |declared| && IsFirst(declared, i)
    ensures declared[i].0 in InTurn(declared) && InTurn(declared)[declared[i].0] == declared[i].1
  {
    var front := declared[..|declared| - 1];
    if i < |front| {
      assert IsFirst(front, i);
      InTurnReadsFirst(front, i);
    } else if declared[i].0 in InTurn(front) {
      var k := DeclaredAt(front, declared[i].0);
    }
  }

  lemma {:induction false} FreshReadsLast(declared: seq<(string, IndexKind)>, j: nat)
    requires j < |declared| && IsLast(declared, j)
    ensures declared[j].0 in Fresh(declared) && Fresh(declared)[declared[j].0].kind == declared[j].1
  {
    var front := declared[..|declared| - 1];
    if j < |front| {
      assert forall k :: j < k < |front| ==> front[k] == declared[k];
      FreshReadsLast(front, j);
    }
  }

  lemma {:induction false} FirstOf(declared: seq<(string, IndexKind)>, key: string, n: nat) returns (i: nat)
    requires n < |declared| && declared[n].0 == key
    ensures i <= n && declared[i].0 == key && IsFirst(declared, i)
  {
    if IsFirst(declared, n) {
      i := n;
    } else {
      var k :| 0 <= k < n && declared[k].0 == key;
      i := FirstOf(declared, key, k);
    }
  }

  lemma {:induction false} LastOf(declared: seq<(string, IndexKind)>, key: string, n: nat) returns (j: nat)
    requires n < |declared| && declared[n].0 == key
    ensures n <= j < |declared| && declared[j].0 == key && IsLast(declared, j)
    decreases |declared| - n
  {
    if IsLast(declared, n) {
      j := n;
    } else {
      var k :| n < k < |declared| && declared[k].0 == key;
      j := LastOf(declared, key, k);
    }
  }

  /** Creation and its replay declare the same indexes exactly when no key is
      declared first with one kind and last with another. */
  lemma CreationKindsAgreeIff(declared: seq<(string, IndexKind)>)
    ensures Kinds(Fresh(declared)) == InTurn(declared) <==> FirstIsLast(declared)
  {
    SameKeys(declared);
    if FirstIsLast(declared) {
      forall key | key in InTurn(declared) ensures Kinds(Fresh(declared))[key] == InTurn(declared)[key] {
        var n := DeclaredAt(declared, key);
        var i := FirstOf(declared, key, n);
        var j := LastOf(declared, key, n);
        InTurnReadsFirst(declared, i);
        FreshReadsLast(declared, j);
      }
      assert Kinds(Fresh(declared)) == InTurn(declared);
    }
    if Kinds(Fresh(declared)) == InTurn(declared) {
      forall i, j | 0 <= i <= j < |declared| && declared[i].0 == declared[j].0 && IsFirst(declared, i) &&
        IsLast(declared, j)
        ensures declared[i].1 == declared[j].1
      {
        InTurnReadsFirst(declared, i);
        FreshReadsLast(declared, j);
      }
    }
  }

  // ----- the live path ------------------------------------------------------

  /** A creation that is journaled and then refused: its graph cannot be built. */
  predicate Unbuildable(env: Env, s: State, op: Op) {
    op.Create? && CreateError(env, s, op.name, op.config).None? && !Buildable(op.config)
  }

  ghost predicate Recoverable(op: Op) {
    op.Create? ==> FirstIsLast(op.declared)
  }

  lemma DeclaredOne(env: Env, v: Views, name: string, id: nat, key: string, kind: IndexKind)
    requires DistinctIdsIn(ViewIds(v)) && name in v && v[name].id == id
    ensures AppliedAll(env, v, [Entry(id, DeclareKey(key, kind))]) ==
      Some(v[name := Changed(env, v[name], DeclareKey(key, kind))])
  {
    NameIs(ViewIds(v), name);
    AppliedOne(env, v, Entry(id, DeclareKey(key, kind)));
  }

  /** One more declaration of a creation. */
  lemma DeclaredNext(env: Env, v: Views, name: string, config: Config, id: nat, declared: seq<(string, IndexKind)>)
    requires DistinctIdsIn(ViewIds(v)) && name !in v && declared != []
    requires forall n :: n in v ==> v[n].id != id
    ensures var front, last := declared[..|declared| - 1], declared[|declared| - 1];
      AppliedAll(env, v[name := View(id, [], config, [], InTurn(front))], [Entry(id, DeclareKey(last.0, last.1))]) ==
      Some(v[name := View(id, [], config, [], InTurn(declared))])
  {
    var front, last := declared[..|declared| - 1], declared[|declared| - 1];
    var before := v[name := View(id, [], config, [], InTurn(front))];
    var after := View(id, [], config, [], InTurn(declared));
    EachUpdate(v, ViewId, name, before[name]);
    DistinctUpdate(ViewIds(v), name, id);
    DeclaredOne(env, before, name, id, last.0, last.1);
    assert before[name := after] == v[name := after];
  }

  /** The entries of a creation mean a new collection with its declared indexes. */
  lemma {:induction false} CreationMeans(
    env: Env, v: Views, name: string, config: Config, id: nat, declared: seq<(string, IndexKind)>)
    requires DistinctIdsIn(ViewIds(v)) && name !in v && Buildable(config)
    requires forall n :: n in v ==> v[n].id != id
    ensures AppliedAll(env, v, [Entry(id, CreateColl(name, [], config))] + Declarations(id, declared)) ==
            Some(v[name := View(id, [], config, [], InTurn(declared))])
  {
    var create := Entry(id, CreateColl(name, [], config));
    if declared == [] {
      AppliedOne(env, v, create);
      assert [create] + Declarations(id, declared) == [create];
    } else {
      var front, last := declared[..|declared| - 1], declared[|declared| - 1];
      CreationMeans(env, v, name, config, id, front);
      DeclaredNext(env, v, name, config, id, declared);
      AppliedJoin(env, v, [create] + Declarations(id, front), [Entry(id, DeclareKey(last.0, last.1))]);
      assert [create] + Declarations(id, declared) ==
             [create] + Declarations(id, front) + [Entry(id, DeclareKey(last.0, last.1))];
    }
  }

  lemma SuccessRefines(
    exact: bool, env: Env, s: State, name: string, config: Config, declared: seq<(string, IndexKind)>)
    requires Wf(s) && (exact ==> FirstIsLast(declared)) && name !in s.colls && Buildable(config)
    ensures var colls := s.colls[name := NewColl(name, [], config, s.nextId, declared)];
      var means := AppliedAll(env, ViewsOf(s.colls),
                              [Entry(s.nextId, CreateColl(name, [], config))] + Declarations(s.nextId, declared));
      && Keyed(colls) && Below(IdsOf(colls), s.nextId + 1)
      && means.Some? && Alike(exact, means.value, ViewsOf(colls))
  {
    SameIds(s.colls);
    var c := NewColl(name, [], config, s.nextId, declared);
    CreationMeans(env, ViewsOf(s.colls), name, config, s.nextId, declared);
    NewCollShows(name, [], config, s.nextId, declared);
    Updated(s.colls, name, c);
    hide *;
    NewSame(exact, config, s.nextId, declared);
    AlikePut(exact, ViewsOf(s.colls), name, View(s.nextId, [], config, [], InTurn(declared)), Shown(c));
    BelowNext(s.colls, name, c, s.nextId);
  }

  lemma BelowNext(colls: map<string, Coll>, name: string, c: Coll, limit: nat)
    requires Below(IdsOf(colls), limit) && c.id == limit
    ensures Below(IdsOf(colls[name := c]), limit + 1)
  {
    EachUpdate<Coll, nat>(colls, IdOf, name, c);
  }

  lemma NewSame(exact: bool, config: Config, id: nat, declared: seq<(string, IndexKind)>)
    requires exact ==> FirstIsLast(declared)
    ensures Same(exact, View(id, [], config, [], InTurn(declared)), View(id, [], config, [], Kinds(Fresh(declared))))
  {
    CreationKindsAgreeIff(declared);
    SameKeys(declared);
  }

  lemma AlikePut(exact: bool, v: Views, name: string, a: View, b: View)
    requires Same(exact, a, b)
    ensures Alike(exact, v[name := a], v[name := b])
  {
  }

  lemma CreateRefines(
    exact: bool, env: Env, s: State, name: string, config: Config, declared: seq<(string, IndexKind)>)
    requires Wf(s) && (exact ==> FirstIsLast(declared)) && !Unbuildable(env, s, Create(name, config, declared))
    ensures RefinesUpTo(exact, env, s, Created(env, s, name, config, declared))
  {
    hide Slots.Valid;
    if CreateError(env, s, name, config).None? {
      SuccessRefines(exact, env, s, name, config, declared);
    }
  }

  /** A step changes what is visible exactly as its journal entries mean. */
  ghost predicate Refines(env: Env, s: State, o: Outcome) {
    Wf(o.state) && AppliedAll(env, ViewsOf(s.colls), o.logged) == Some(ViewsOf(o.state.colls))
  }

  ghost predicate RefinesUpTo(exact: bool, env: Env, s: State, o: Outcome) {
    var means := AppliedAll(env, ViewsOf(s.colls), o.logged);
    Wf(o.state) && means.Some? && Alike(exact, means.value, ViewsOf(o.state.colls))
  }

  lemma NothingRefines(env: Env, s: State, o: Outcome)
    requires Wf(s) && o.state.colls == s.colls && o.state.nextId == s.nextId && o.logged == []
    ensures Refines(env, s, o)
  {
  }

  /** One entry about one collection, applied to memory in the same way. */
  lemma ChangeRefines(env: Env, s: State, o: Outcome, name: string, c: Coll, body: Body)
    requires Wf(s) && name in s.colls && c.id == s.colls[name].id && c.name == s.colls[name].name
    requires o.state.colls == s.colls[name := c] && o.state.nextId == s.nextId && o.logged == [Entry(c.id, body)]
    requires !body.CreateColl? && !body.DropColl? && !body.Rename?
    requires body.UpsertPoints? ==> PrepareAll(s.colls[name].config, env.sqrt, body.points, true).Success?
    requires Shown(c) == Changed(env, Shown(s.colls[name]), body)
    ensures Refines(env, s, o)
  {
    hide Slots.Valid;
    SameIds(s.colls);
    NameIs(IdsOf(s.colls), name);
    NameOfKey(s.colls, name);
    AppliedOne(env, ViewsOf(s.colls), Entry(c.id, body));
    Updated(s.colls, name, c);
  }

  lemma DropRefines(env: Env, s: State, name: string)
    requires Wf(s)
    ensures Refines(env, s, Dropped(s, name))
  {
    if name in s.colls {
      SameIds(s.colls);
      NameIs(IdsOf(s.colls), name);
      AppliedOne(env, ViewsOf(s.colls), Entry(s.colls[name].id, DropColl));
      Without(s.colls, name);
    }
  }

  lemma RenameRefines(env: Env, s: State, from: string, to: string)
    requires Wf(s)
    ensures Refines(env, s, Renamed(s, from, to))
  {
    if ValidName(to) && to !in s.colls && from in s.colls {
      var c := s.colls[from];
      SameIds(s.colls);
      NameIs(IdsOf(s.colls), from);
      AppliedOne(env, ViewsOf(s.colls), Entry(c.id, Rename(to)));
      Without(s.colls, from);
      Updated(s.colls - {from}, to, c.(name := to));
    }
  }

  lemma AliasRefines(env: Env, s: State, alias: string, target: string)
    requires Wf(s)
    ensures Refines(env, s, Aliased(s, alias, target))
  {
    hide Slots.Valid;
    var o := Aliased(s, alias, target);
    if o.answer.Success? {
      var c := s.colls[target];
      var after: Coll := c.(aliases := c.aliases + [alias]);
      assert Shown(after) == Changed(env, Shown(c), SetAlias(true, alias));
      hide *;
      ChangeRefines(env, s, o, target, after, SetAlias(true, alias));
    } else {
      NothingRefines(env, s, o);
    }
  }

  lemma UnaliasRefines(env: Env, s: State, alias: string)
    requires Wf(s)
    ensures Refines(env, s, Unaliased(s, alias))
  {
    var o := Unaliased(s, alias);
    if alias in s.aliases && s.aliases[alias] in s.colls {
      var target := s.aliases[alias];
      var c := s.colls[target];
      var after: Coll := c.(aliases := Retained(c.aliases, alias));
      assert Shown(after) == Changed(env, Shown(c), SetAlias(false, alias));
      hide *;
      ChangeRefines(env, s, o, target, after, SetAlias(false, alias));
    } else {
      NothingRefines(env, s, o);
    }
  }

  lemma UpsertRefines(env: Env, s: State, id: nat, batch: seq<Point>, reserved: bool)
    requires Wf(s) && SqrtLaw(env.sqrt)
    ensures Refines(env, s, PointsUpserted(env, s, id, batch, reserved))
  {
    hide Slots.Valid;
    var o, at := PointsUpserted(env, s, id, batch, reserved), NameOf(IdsOf(s.colls), id);
    if o.answer.Success? {
      var c := s.colls[at.value];
      PrepareAllIdempotent(c.config, env.sqrt, batch, reserved);
      WithPointsShows(env, c, batch, reserved);
      hide PrepareAll, WithPoints, Shown, Wf, ViewsOf, Refines, AppliedAll, Slots.PutAll;
      ChangeRefines(env, s, o, at.value, WithPoints(env, c, batch, reserved), UpsertPoints(batch));
    } else {
      NothingRefines(env, s, o);
    }
  }

  lemma DeleteRefines(env: Env, s: State, id: nat, ids: seq<string>)
    requires Wf(s)
    ensures Refines(env, s, PointsDeleted(s, id, ids))
  {
    var o, at := PointsDeleted(s, id, ids), NameOf(IdsOf(s.colls), id);
    if o.answer.Success? {
      WithoutIdsShows(s.colls[at.value], ids);
      ChangeRefines(env, s, o, at.value, WithoutIds(s.colls[at.value], ids), DeleteIds(ids));
    } else {
      NothingRefines(env, s, o);
    }
  }

  lemma IndexRefines(env: Env, s: State, id: nat, key: string, kind: IndexKind)
    requires Wf(s)
    ensures Refines(env, s, IndexCreated(s, id, key, kind))
  {
    hide Slots.Valid;
    var o, at := IndexCreated(s, id, key, kind), NameOf(IdsOf(s.colls), id);
    if o.logged == [] {
      NothingRefines(env, s, o);
    } else {
      var c := s.colls[at.value];
      var d := WithIndex(c, key, kind);
      WithIndexShows(env, c, key, kind);
      ChangeRefines(env, s, o, at.value, d, DeclareKey(key, kind));
    }
  }

  lemma OtherRefines(env: Env, s: State, op: Op)
    requires Wf(s) && SqrtLaw(env.sqrt) && !op.Create?
    ensures Refines(env, s, Step(env, s, op))
  {
    match op
    case CreateAlias(alias, target) => AliasRefines(env, s, alias, target);
    case DeleteAlias(alias) => UnaliasRefines(env, s, alias);
    case Drop(name) => DropRefines(env, s, name);
    case RenameTo(from, to) => RenameRefines(env, s, from, to);
    case Upsert(id, batch, reserved) => UpsertRefines(env, s, id, batch, reserved);
    case Delete(id, ids) => DeleteRefines(env, s, id, ids);
    case CreateIndex(id, key, kind) => IndexRefines(env, s, id, key, kind);
  }

  /** Every step keeps the registry well formed and changes what is visible as the
      entries it journaled mean: exactly, unless it creates a collection that
      declares a key first with one kind and last with another. */
  lemma StepRefines(exact: bool, env: Env, s: State, op: Op)
    requires Wf(s) && SqrtLaw(env.sqrt) && (exact ==> Recoverable(op)) && !Unbuildable(env, s, op)
    ensures RefinesUpTo(exact, env, s, Step(env, s, op))
  {
    hide Slots.Valid, SqrtLaw, AppliedAll, Wf;
    if op.Create? {
      CreateRefines(exact, env, s, op.name, op.config, op.declared);
    } else {
      OtherRefines(env, s, op);
      AlikeSelf(exact, ViewsOf(Step(env, s, op).state.colls));
      hide Step;
    }
  }

  // ----- the registry invariant over any run ---------------------------------

  lemma SameIdentityKeepsKeyed(colls: map<string, Coll>, name: string, c: Coll, limit: nat)
    requires KeyedBelow(colls, limit) && name in colls && c.id == colls[name].id && c.name == colls[name].name
    ensures KeyedBelow(colls[name := c], limit)
  {
    NameOfKey(colls, name);
    assert IdsOf(colls)[name] == colls[name].id;
    UpdateKeepsKeyed(colls, name, c, limit);
  }

  lemma CreateKeepsWf(env: Env, s: State, name: string, config: Config, declared: seq<(string, IndexKind)>)
    requires Wf(s)
    ensures Wf(Created(env, s, name, config, declared).state)
  {
    if Created(env, s, name, config, declared).answer.Success? {
      UpdateKeepsKeyed(s.colls, name, NewColl(name, [], config, s.nextId, declared), s.nextId + 1);
    }
  }

  lemma AliasKeepsWf(env: Env, s: State, op: Op)
    requires Wf(s) && (op.CreateAlias? || op.DeleteAlias?)
    ensures Wf(Step(env, s, op).state)
  {
    var name := if op.CreateAlias? then op.target else if op.alias in s.aliases then s.aliases[op.alias] else "";
    hide Keyed, Below, ValidName;
    if name in s.colls {
      var c := s.colls[name];
      SameIdentityKeepsKeyed(s.colls, name, c.(aliases := c.aliases + [op.alias]), s.nextId);
      SameIdentityKeepsKeyed(s.colls, name, c.(aliases := Retained(c.aliases, op.alias)), s.nextId);
    }
  }

  lemma NamesKeepWf(env: Env, s: State, op: Op)
    requires Wf(s) && (op.Drop? || op.RenameTo?)
    ensures Wf(Step(env, s, op).state)
  {
    hide Keyed, Below, ValidName;
    match op
    case Drop(name) =>
      if name in s.colls {
        RenameKeepsKeyed(s.colls, name, name, s.nextId);
      }
    case RenameTo(from, to) =>
      if Renamed(s, from, to).answer.Success? {
        RenameKeepsKeyed(s.colls, from, to, s.nextId);
      }
  }

  lemma UpsertKeepsWf(env: Env, s: State, id: nat, batch: seq<Point>, reserved: bool)
    requires Wf(s)
    ensures Wf(PointsUpserted(env, s, id, batch, reserved).state)
  {
    var at := NameOf(IdsOf(s.colls), id);
    if PointsUpserted(env, s, id, batch, reserved).answer.Success? {
      SameIdentityKeepsKeyed(s.colls, at.value, WithPoints(env, s.colls[at.value], batch, reserved), s.nextId);
    }
  }

  lemma DeleteKeepsWf(s: State, id: nat, ids: seq<string>)
    requires Wf(s)
    ensures Wf(PointsDeleted(s, id, ids).state)
  {
    var at := NameOf(IdsOf(s.colls), id);
    if at.Some? {
      SameIdentityKeepsKeyed(s.colls, at.value, WithoutIds(s.colls[at.value], ids), s.nextId);
    }
  }

  lemma IndexKeepsWf(s: State, id: nat, key: string, kind: IndexKind)
    requires Wf(s)
    ensures Wf(IndexCreated(s, id, key, kind).state)
  {
    var at := NameOf(IdsOf(s.colls), id);
    if at.Some? {
      SameIdentityKeepsKeyed(s.colls, at.value, WithIndex(s.colls[at.value], key, kind), s.nextId);
    }
  }

  /** Whatever the operation and whether it succeeds: names match their keys, and
      ids are distinct and below the next one. */
  lemma StepKeepsWf(env: Env, s: State, op: Op)
    requires Wf(s)
    ensures Wf(Step(env, s, op).state)
  {
    match op
    case Create(name, config, declared) => CreateKeepsWf(env, s, name, config, declared);
    case Upsert(id, batch, reserved) => UpsertKeepsWf(env, s, id, batch, reserved);
    case Delete(id, ids) => DeleteKeepsWf(s, id, ids);
    case CreateIndex(id, key, kind) => IndexKeepsWf(s, id, key, kind);
    case Drop(_) => NamesKeepWf(env, s, op);
    case RenameTo(_, _) => NamesKeepWf(env, s, op);
    case _ => AliasKeepsWf(env, s, op);
  }
}
