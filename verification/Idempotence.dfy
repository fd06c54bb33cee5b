/** Replay over a file that already holds the journal's effects. A crash after a
    commit swapped the file in and before it dropped the journal (`commit` and
    `vacuum` in crates/veclite/src/persist/mod.rs) reopens that way. */
module Idempotence {
  import opened Core
  import opened Aliases
  import opened Checkpoint
  import opened Collections
  import opened Crashes
  import opened Linear
  import opened Recovery
  import opened Registry
  import Refit
  import Slots

  // ----- collections by id --------------------------------------------------

  /** What a collection is. */
  datatype Held = Held(
    name: string, aliases: seq<string>, config: Config, points: seq<Point>, kinds: map<string, IndexKind>)

  type Table = map<nat, Held>

  /** The same, order and repetitions in the alias lists apart. */
  predicate Agrees(a: Held, b: Held) {
    && a.name == b.name && a.config == b.config && a.points == b.points && a.kinds == b.kinds
    && Elems(a.aliases) == Elems(b.aliases)
  }

  function HeldAs(name: string, w: View): Held {
    Held(name, w.aliases, w.config, w.points, w.kinds)
  }

  ghost function ById(v: Views): Table {
    var ids := ViewIds(v);
    map id | id in ids.Values :: HeldAs(NameOf(ids, id).value, v[NameOf(ids, id).value])
  }

  /** Table and views list the same collections. */
  ghost predicate Lists(v: Views, t: Table) {
    && (forall n :: n in v ==> v[n].id in t && t[v[n].id] == HeldAs(n, v[n]))
    && (forall id :: id in t ==> t[id].name in v && v[t[id].name].id == id)
  }

  lemma ByIdLists(v: Views)
    requires DistinctIdsIn(ViewIds(v))
    ensures Lists(v, ById(v))
  {
    var ids := ViewIds(v);
    forall n | n in v ensures v[n].id in ids.Values && NameOf(ids, v[n].id) == Some(n) {
      assert ids[n] == v[n].id;
      NameIs(ids, n);
    }
  }

  lemma ListsOne(v: Views, t: Table, u: Table)
    requires Lists(v, t) && Lists(v, u)
    ensures t == u
  {
    assert forall id :: id in t ==> id in u && u[id] == t[id];
    assert forall id :: id in u ==> id in t;
  }

  lemma NameById(v: Views, t: Table, id: nat)
    requires Lists(v, t)
    ensures var at := NameOf(ViewIds(v), id);
      && (at.Some? <==> id in t)
      && (at.Some? ==> at.value in v && v[at.value].id == id && t[id] == HeldAs(at.value, v[at.value]))
  {
    var at, ids := NameOf(ViewIds(v), id), ViewIds(v);
    if id in t {
      assert t[id].name in ids && ids[t[id].name] == id;
    }
    if at.Some? {
      assert v[at.value].id == id;
    }
  }

  /** A collection takes its name, and the slot of whoever held it. */
  function Placed(t: Table, id: nat, h: Held): Table {
    (map d | d in t && t[d].name != h.name :: t[d])[id := h]
  }

  lemma PutLists(v: Views, t: Table, name: string, w: View)
    requires Lists(v, t) && forall n :: n in v && n != name ==> v[n].id != w.id
    ensures Lists(v[name := w], Placed(t, w.id, HeldAs(name, w)))
  {
    hide HeldAs;
    HeldName(name, w);
    forall n | n in v ensures t[v[n].id].name == n {
      HeldName(n, v[n]);
    }
  }

  lemma HeldName(name: string, w: View)
    ensures HeldAs(name, w).name == name
  {
  }

  lemma CutLists(v: Views, t: Table, name: string)
    requires Lists(v, t) && name in v
    ensures Lists(v - {name}, t - {v[name].id})
  {
  }

  // ----- entries over tables ------------------------------------------------

  ghost predicate Accepts(env: Env, config: Config, body: Body) {
    body.UpsertPoints? ==> PrepareAll(config, env.sqrt, body.points, true).Success?
  }

  ghost function Prepared(env: Env, config: Config, points: seq<Point>): seq<Point> {
    var r := PrepareAll(config, env.sqrt, points, true);
    if r.Success? then r.value else []
  }

  ghost function Edited(env: Env, h: Held, body: Body): Held {
    match body
    case Rename(newName) => h.(name := newName)
    case UpsertPoints(points) => h.(points := Slots.PutAll(h.points, Prepared(env, h.config, points)))
    case DeleteIds(ids) => h.(points := Slots.WithoutAll(h.points, ids))
    case SetAlias(create, alias) => h.(aliases := if create then h.aliases + [alias] else Retained(h.aliases, alias))
    case DeclareKey(key, kind) => h.(kinds := if key in h.kinds then h.kinds else h.kinds[key := kind])
    case _ => h
  }

  function Opened(body: Body): Held
    requires body.CreateColl?
  {
    Held(body.name, body.aliases, body.config, [], map[])
  }

  /** An entry that replay can read over this table. */
  ghost predicate Readable(env: Env, t: Table, e: Entry) {
    && (e.body.CreateColl? && e.collId !in t ==> Buildable(e.body.config))
    && (e.collId in t ==> Accepts(env, t[e.collId].config, e.body))
  }

  /** An entry that the live path can have written over it. */
  ghost predicate Fits(env: Env, t: Table, e: Entry) {
    && Readable(env, t, e)
    && (e.body.CreateColl? <==> e.collId !in t)
    && (e.body.CreateColl? || e.body.Rename? ==>
          var name := if e.body.CreateColl? then e.body.name else e.body.newName;
          forall d :: d in t ==> t[d].name != name)
  }

  ghost function Stepped(env: Env, t: Table, e: Entry): Table {
    var id := e.collId;
    if e.body.CreateColl? then
      if id in t then t else Placed(t, id, Opened(e.body))
    else if id !in t then t
    else if e.body.DropColl? then t - {id}
    else if e.body.Rename? then Placed(t, id, t[id].(name := e.body.newName))
    else t[id := Edited(env, t[id], e.body)]
  }

  lemma EditedShows(env: Env, name: string, w: View, body: Body)
    requires Accepts(env, w.config, body) && !body.Rename?
    ensures HeldAs(name, Changed(env, w, body)) == Edited(env, HeldAs(name, w), body)
  {
  }

  /** The live meaning of an entry, collection by collection. */
  lemma AppliedSteps(env: Env, v: Views, t: Table, e: Entry)
    requires Lists(v, t) && Admissible(env, v, e)
    ensures Fits(env, t, e) && Lists(Applied(env, v, e), Stepped(env, t, e))
  {
    NameById(v, t, e.collId);
    var at := NameOf(ViewIds(v), e.collId);
    if e.body.CreateColl? {
      PutLists(v, t, e.body.name, NewView(e.body, e.collId));
    } else if e.body.DropColl? {
      CutLists(v, t, at.value);
    } else if e.body.Rename? {
      CutLists(v, t, at.value);
      PutLists(v - {at.value}, t - {e.collId}, e.body.newName, v[at.value]);
      PlacedOver(t, e.collId, HeldAs(e.body.newName, v[at.value]));
    } else {
      EditedShows(env, at.value, v[at.value], e.body);
      ListsNames(v, t, at.value);
      PutLists(v, t, at.value, Changed(env, v[at.value], e.body));
      PlacedInPlace(v, t, e.collId, HeldAs(at.value, Changed(env, v[at.value], e.body)));
    }
  }

  /** Names in a table of views are distinct. */
  lemma PlacedInPlace(v: Views, t: Table, id: nat, h: Held)
    requires Lists(v, t) && id in t && h.name == t[id].name
    ensures Placed(t, id, h) == t[id := h]
  {
  }

  lemma PlacedOver(t: Table, id: nat, h: Held)
    ensures Placed(t - {id}, id, h) == Placed(t, id, h)
  {
  }

  lemma ListsNames(v: Views, t: Table, name: string)
    requires Lists(v, t) && name in v
    ensures forall n :: n in v && n != name ==> v[n].id != v[name].id
  {
  }

  lemma ReplayedPut(s: State, t: Table, name: string, c: Coll)
    requires Keyed(s.colls) && Lists(ViewsOf(s.colls), t) && c.name == name
    requires forall n :: n in s.colls && n != name ==> s.colls[n].id != c.id
    ensures Keyed(s.colls[name := c])
    ensures Lists(ViewsOf(s.colls[name := c]), Placed(t, c.id, HeldAs(name, Shown(c))))
  {
    assert forall n :: n in IdsOf(s.colls) ==> IdsOf(s.colls)[n] == s.colls[n].id;
    Updated(s.colls, name, c);
    PutLists(ViewsOf(s.colls), t, name, Shown(c));
  }

  lemma ReplayedCut(s: State, t: Table, name: string)
    requires Keyed(s.colls) && Lists(ViewsOf(s.colls), t) && name in s.colls
    ensures Keyed(s.colls - {name})
    ensures Lists(ViewsOf(s.colls - {name}), t - {s.colls[name].id})
  {
    Without(s.colls, name);
    CutLists(ViewsOf(s.colls), t, name);
  }

  lemma CollsNames(s: State, t: Table, name: string)
    requires Lists(ViewsOf(s.colls), t) && name in s.colls
    ensures forall n :: n in s.colls && n != name ==> s.colls[n].id != s.colls[name].id
  {
    ListsNames(ViewsOf(s.colls), t, name);
    assert forall n :: n in s.colls ==> ViewsOf(s.colls)[n].id == s.colls[n].id;
  }

  lemma RenameSteps(env: Env, s: State, t: Table, name: string, newName: string)
    requires Keyed(s.colls) && Lists(ViewsOf(s.colls), t) && name in s.colls
    ensures var c := s.colls[name];
      var after := (s.colls - {name})[newName := c.(name := newName)];
      && Keyed(after) && c.id in t
      && Lists(ViewsOf(after), Placed(t, c.id, t[c.id].(name := newName)))
  {
    var c := s.colls[name];
    CollsNames(s, t, name);
    ReplayedCut(s, t, name);
    ReplayedPut(s.(colls := s.colls - {name}), t - {c.id}, newName, c.(name := newName));
    PlacedOver(t, c.id, HeldAs(newName, Shown(c)));
    assert Shown(c.(name := newName)) == Shown(c) == ViewsOf(s.colls)[name];
  }

  lemma EditSteps(env: Env, s: State, t: Table, name: string, body: Body)
    requires Keyed(s.colls) && Lists(ViewsOf(s.colls), t) && name in s.colls && !body.Rename?
    requires Accepts(env, s.colls[name].config, body)
    ensures var c, r := s.colls[name], ReplayedColl(env, s.colls[name], body);
      && r.Success? && Keyed(s.colls[name := r.value]) && c.id in t
      && Lists(ViewsOf(s.colls[name := r.value]), t[c.id := Edited(env, t[c.id], body)])
  {
    var c := s.colls[name];
    CollReplays(env, c, body);
    EditedShows(env, name, Shown(c), body);
    NameOfKey(s.colls, name);
    CollsNames(s, t, name);
    assert Shown(c) == ViewsOf(s.colls)[name];
    ReplayedPut(s, t, name, ReplayedColl(env, c, body).value);
    PlacedInPlace(ViewsOf(s.colls), t, c.id, HeldAs(name, Changed(env, Shown(c), body)));
  }

  lemma CreateSteps(s: State, t: Table, body: Body, id: nat)
    requires Keyed(s.colls) && Lists(ViewsOf(s.colls), t) && body.CreateColl? && id !in t
    ensures var after := s.colls[body.name := NewColl(body.name, body.aliases, body.config, id, [])];
      Keyed(after) && Lists(ViewsOf(after), Placed(t, id, Opened(body)))
  {
    NewCollShows(body.name, body.aliases, body.config, id, []);
    assert forall n :: n in s.colls ==> ViewsOf(s.colls)[n].id == s.colls[n].id;
    ReplayedPut(s, t, body.name, NewColl(body.name, body.aliases, body.config, id, []));
  }

  /** What replay does with any readable entry, also one that meets a name taken
      by another collection. */
  lemma ReplayedSteps(env: Env, s: State, t: Table, e: Entry)
    requires Keyed(s.colls) && Lists(ViewsOf(s.colls), t) && Readable(env, t, e)
    ensures var r := Replayed(env, s, e);
      r.Success? && Keyed(r.value.colls) && Lists(ViewsOf(r.value.colls), Stepped(env, t, e))
  {
    var v, at := ViewsOf(s.colls), NameOf(IdsOf(s.colls), e.collId);
    SameIds(s.colls);
    NameById(v, t, e.collId);
    if e.body.CreateColl? {
      if at.None? {
        CreateSteps(s, t, e.body, e.collId);
      }
    } else if at.Some? {
      assert Shown(s.colls[at.value]) == v[at.value];
      if e.body.Rename? {
        RenameSteps(env, s, t, at.value, e.body.newName);
      } else if e.body.DropColl? {
        ReplayedCut(s, t, at.value);
      } else {
        EditSteps(env, s, t, at.value, e.body);
      }
    }
  }

  // ----- what a run of entries does to one collection -----------------------

  /** An alias set (true) or deleted. */
  type Word = (bool, string)

  /** The last name given, the ids written and the points left of them in order,
      the words on aliases, the keys declared. */
  datatype Effect = Effect(
    name: Option<string>, touched: set<string>, tail: seq<Point>, words: seq<Word>, keys: set<string>)

  const NO_EFFECT := Effect(None, {}, [], [], {})

  ghost function Grown(env: Env, config: Config, x: Effect, body: Body): Effect {
    match body
    case Rename(newName) => x.(name := Some(newName))
    case UpsertPoints(points) =>
      var batch := Prepared(env, config, points);
      x.(touched := x.touched + Elems(Refit.IdsOf(batch)), tail := Slots.PutAll(x.tail, batch))
    case DeleteIds(ids) => x.(touched := x.touched + Elems(ids), tail := Slots.WithoutAll(x.tail, ids))
    case SetAlias(create, alias) => x.(words := x.words + [(create, alias)])
    case DeclareKey(key, _) => x.(keys := x.keys + {key})
    case _ => x
  }

  function Fold(l: seq<string>, words: seq<Word>): seq<string> {
    if words == [] then l
    else
      var before, (create, alias) := Fold(l, words[..|words| - 1]), words[|words| - 1];
      if create then before + [alias] else Retained(before, alias)
  }

  function LastWord(words: seq<Word>, alias: string): Option<bool> {
    if words == [] then None
    else if words[|words| - 1].1 == alias then Some(words[|words| - 1].0)
    else LastWord(words[..|words| - 1], alias)
  }

  /** The last word decides whether an alias is listed. */
  lemma {:induction false} FoldMembers(l: seq<string>, words: seq<Word>, alias: string)
    ensures alias in Fold(l, words) <==>
      if LastWord(words, alias).Some? then LastWord(words, alias).value else alias in l
  {
    if words != [] {
      FoldMembers(l, words[..|words| - 1], alias);
    }
  }

  lemma FoldElems(l: seq<string>, m: seq<string>, words: seq<Word>)
    ensures Elems(l) == Elems(m) ==> Elems(Fold(l, words)) == Elems(Fold(m, words))
    ensures Elems(Fold(Fold(l, words), words)) == Elems(Fold(l, words))
  {
    forall a ensures a in Fold(Fold(l, words), words) <==> a in Fold(l, words) {
      FoldMembers(l, words, a);
      FoldMembers(Fold(l, words), words, a);
    }
    if Elems(l) == Elems(m) {
      forall a ensures a in Fold(l, words) <==> a in Fold(m, words) {
        FoldMembers(l, words, a);
        FoldMembers(m, words, a);
        assert a in Elems(l) <==> a in Elems(m);
      }
    }
  }

  function Absorbed(h: Held, x: Effect): Held {
    Held(if x.name.Some? then x.name.value else h.name,
         Fold(h.aliases, x.words),
         h.config,
         Refit.Outside(h.points, x.touched) + x.tail,
         h.kinds)
  }

  predicate Inside(x: Effect) {
    forall i :: 0 <= i < |x.tail| ==> x.tail[i].id in x.touched
  }

  ghost predicate Settled(h: Held, x: Effect) {
    Agrees(Absorbed(h, x), h) && x.keys <= h.kinds.Keys
  }

  lemma PutGrows(u: seq<Point>, touched: set<string>, tail: seq<Point>, p: Point)
    ensures Slots.Put(Refit.Outside(u, touched) + tail, p) == Refit.Outside(u, touched + {p.id}) + Slots.Put(tail, p)
  {
    Refit.WithoutJoin(Refit.Outside(u, touched), tail, p.id);
    Refit.WithoutOutside(u, touched, p.id);
  }

  lemma {:induction false} PutAllGrows(u: seq<Point>, touched: set<string>, tail: seq<Point>, batch: seq<Point>)
    ensures Slots.PutAll(Refit.Outside(u, touched) + tail, batch) ==
            Refit.Outside(u, touched + Elems(Refit.IdsOf(batch))) + Slots.PutAll(tail, batch)
  {
    var ids := Refit.IdsOf(batch);
    if batch == [] {
      assert touched + Elems(ids) == touched;
    } else {
      var front, last := batch[..|batch| - 1], batch[|batch| - 1];
      hide Slots.Put, Refit.Outside;
      assert ids == Refit.IdsOf(front) + [last.id];
      assert touched + Elems(Refit.IdsOf(front)) + {last.id} == touched + Elems(ids);
      hide Refit.IdsOf;
      PutAllGrows(u, touched, tail, front);
      PutGrows(u, touched + Elems(Refit.IdsOf(front)), Slots.PutAll(tail, front), last);
    }
  }

  lemma {:induction false} WithoutAllGrows(u: seq<Point>, touched: set<string>, tail: seq<Point>, ids: seq<string>)
    ensures Slots.WithoutAll(Refit.Outside(u, touched) + tail, ids) ==
            Refit.Outside(u, touched + Elems(ids)) + Slots.WithoutAll(tail, ids)
  {
    if ids == [] {
      assert touched + Elems(ids) == touched;
    } else {
      var front, last := ids[..|ids| - 1], ids[|ids| - 1];
      hide Slots.Without, Refit.Outside;
      assert touched + Elems(front) + {last} == touched + Elems(ids);
      WithoutAllGrows(u, touched, tail, front);
      Refit.WithoutJoin(Refit.Outside(u, touched + Elems(front)), Slots.WithoutAll(tail, front), last);
      Refit.WithoutOutside(u, touched + Elems(front), last);
    }
  }

  lemma EditAbsorbs(env: Env, h: Held, x: Effect, body: Body)
    requires body.DeclareKey? ==> body.key in h.kinds
    ensures Edited(env, Absorbed(h, x), body) == Absorbed(h, Grown(env, h.config, x, body))
  {
    hide Prepared, Refit.Outside, Slots.PutAll, Slots.WithoutAll;
    match body
    case UpsertPoints(points) => PutAllGrows(h.points, x.touched, x.tail, Prepared(env, h.config, points));
    case DeleteIds(ids) => WithoutAllGrows(h.points, x.touched, x.tail, ids);
    case SetAlias(create, alias) => assert (x.words + [(create, alias)])[..|x.words|] == x.words;
    case _ =>
  }

  /** Editing and absorbing respect agreement. */
  lemma EditedAgrees(env: Env, h: Held, g: Held, body: Body)
    requires Agrees(h, g)
    ensures Agrees(Edited(env, h, body), Edited(env, g, body))
  {
    if body.SetAlias? {
      assert Elems(h.aliases + [body.alias]) == Elems(h.aliases) + {body.alias};
      assert Elems(g.aliases + [body.alias]) == Elems(g.aliases) + {body.alias};
      assert Elems(Retained(h.aliases, body.alias)) == Elems(h.aliases) - {body.alias};
      assert Elems(Retained(g.aliases, body.alias)) == Elems(g.aliases) - {body.alias};
    }
  }

  lemma AbsorbedAgrees(h: Held, g: Held, x: Effect)
    requires Agrees(h, g)
    ensures Agrees(Absorbed(h, x), Absorbed(g, x))
  {
    FoldElems(h.aliases, g.aliases, x.words);
  }

  lemma {:induction false} OutsideTwice(u: seq<Point>, touched: set<string>)
    ensures Refit.Outside(Refit.Outside(u, touched), touched) == Refit.Outside(u, touched)
  {
    if u != [] {
      var front := Refit.Outside(u[..|u| - 1], touched);
      OutsideTwice(u[..|u| - 1], touched);
      if u[|u| - 1].id in touched {
        assert Refit.Outside(u, touched) == front;
      } else {
        assert Refit.Outside(u, touched)[..|front|] == front;
      }
    }
  }

  lemma {:induction false} OutsideTail(u: seq<Point>, tail: seq<Point>, touched: set<string>)
    requires forall i :: 0 <= i < |tail| ==> tail[i].id in touched
    ensures Refit.Outside(u + tail, touched) == Refit.Outside(u, touched)
  {
    if tail == [] {
      assert u + tail == u;
    } else {
      OutsideTail(u, tail[..|tail| - 1], touched);
      assert (u + tail)[..|u + tail| - 1] == u + tail[..|tail| - 1];
    }
  }

  lemma AbsorbedTwice(h: Held, x: Effect)
    requires Inside(x)
    ensures Agrees(Absorbed(Absorbed(h, x), x), Absorbed(h, x))
  {
    FoldElems(h.aliases, h.aliases, x.words);
    OutsideTail(Refit.Outside(h.points, x.touched), x.tail, x.touched);
    OutsideTwice(h.points, x.touched);
  }

  lemma {:induction false} PutAllInside(tail: seq<Point>, batch: seq<Point>, touched: set<string>)
    requires forall i :: 0 <= i < |tail| ==> tail[i].id in touched
    ensures forall p :: p in Slots.PutAll(tail, batch) ==> p.id in touched + Elems(Refit.IdsOf(batch))
  {
    if batch != [] {
      var front, last := batch[..|batch| - 1], batch[|batch| - 1];
      var before, ids := Slots.PutAll(tail, front), touched + Elems(Refit.IdsOf(front));
      PutAllInside(tail, front, touched);
      Slots.WithoutMembers(before, last.id);
      assert Refit.IdsOf(batch) == Refit.IdsOf(front) + [last.id];
      assert touched + Elems(Refit.IdsOf(batch)) == ids + {last.id};
      hide Refit.IdsOf, Slots.Without;
      assert Slots.PutAll(tail, batch) == Slots.Put(before, last);
    }
  }

  lemma {:induction false} WithoutAllInside(tail: seq<Point>, ids: seq<string>, touched: set<string>)
    requires forall i :: 0 <= i < |tail| ==> tail[i].id in touched
    ensures forall p :: p in Slots.WithoutAll(tail, ids) ==> p.id in touched
  {
    if ids != [] {
      WithoutAllInside(tail, ids[..|ids| - 1], touched);
      Slots.WithoutMembers(Slots.WithoutAll(tail, ids[..|ids| - 1]), ids[|ids| - 1]);
    }
  }

  lemma GrownInside(env: Env, config: Config, x: Effect, body: Body)
    requires Inside(x)
    ensures Inside(Grown(env, config, x, body))
  {
    match body
    case UpsertPoints(points) => PutAllInside(x.tail, Prepared(env, config, points), x.touched);
    case DeleteIds(ids) => WithoutAllInside(x.tail, ids, x.touched);
    case _ =>
  }

  lemma SettledStays(env: Env, h: Held, x: Effect, body: Body)
    requires Settled(h, x) && Inside(x)
    ensures Settled(Edited(env, h, body), Grown(env, h.config, x, body))
  {
    var y := Grown(env, h.config, x, body);
    if !body.DeclareKey? {
      EditAbsorbs(env, h, x, body);
      GrownInside(env, h.config, x, body);
      AbsorbedTwice(h, y);
      EditedAgrees(env, Absorbed(h, x), h, body);
      AbsorbedAgrees(Absorbed(h, y), Edited(env, h, body), y);
    }
  }

  // ----- runs of entries ----------------------------------------------------

  ghost function SteppedAll(env: Env, t: Table, es: seq<Entry>): Table {
    if es == [] then t else Stepped(env, SteppedAll(env, t, es[..|es| - 1]), es[|es| - 1])
  }

  ghost predicate FitsAll(env: Env, t: Table, es: seq<Entry>) {
    es == [] || (FitsAll(env, t, es[..|es| - 1]) && Fits(env, SteppedAll(env, t, es[..|es| - 1]), es[|es| - 1]))
  }

  ghost predicate ReadableAll(env: Env, t: Table, es: seq<Entry>) {
    es == [] || (ReadableAll(env, t, es[..|es| - 1]) && Readable(env, SteppedAll(env, t, es[..|es| - 1]), es[|es| - 1]))
  }

  ghost function EffectOf(env: Env, config: Config, es: seq<Entry>, id: nat): Effect {
    if es == [] then NO_EFFECT
    else
      var before, e := EffectOf(env, config, es[..|es| - 1], id), es[|es| - 1];
      if e.collId == id then Grown(env, config, before, e.body) else before
  }

  lemma {:induction false} EffectInside(env: Env, config: Config, es: seq<Entry>, id: nat)
    ensures Inside(EffectOf(env, config, es, id))
  {
    if es != [] {
      EffectInside(env, config, es[..|es| - 1], id);
      GrownInside(env, config, EffectOf(env, config, es[..|es| - 1], id), es[|es| - 1].body);
    }
  }

  lemma {:induction false} NoEffect(env: Env, config: Config, es: seq<Entry>, id: nat)
    requires forall i :: 0 <= i < |es| ==> es[i].collId != id
    ensures EffectOf(env, config, es, id) == NO_EFFECT
  {
    if es != [] {
      NoEffect(env, config, es[..|es| - 1], id);
    }
  }

  lemma {:induction false} KeysGrow(env: Env, config: Config, es: seq<Entry>, n: nat, id: nat)
    requires n < |es| && es[n].collId == id && es[n].body.DeclareKey?
    ensures es[n].body.key in EffectOf(env, config, es, id).keys
  {
    if n < |es| - 1 {
      KeysGrow(env, config, es[..|es| - 1], n, id);
    }
  }

  lemma NothingSettles(h: Held)
    ensures Settled(h, NO_EFFECT)
  {
    Refit.OutsideNothing(h.points);
  }

  /** A fitting entry leaves the other collections alone. */
  lemma FitsOthers(env: Env, t: Table, e: Entry, id: nat)
    requires Fits(env, t, e) && id != e.collId
    ensures var u := Stepped(env, t, e); (id in u <==> id in t) && (id in t ==> u[id] == t[id])
  {
  }

  /** What a fitting entry does to its own collection. */
  lemma FitsOwn(env: Env, t: Table, e: Entry)
    requires Fits(env, t, e)
    ensures var u, id := Stepped(env, t, e), e.collId;
      && (id in u <==> !e.body.DropColl?)
      && (id in u && e.body.CreateColl? ==> u[id] == Opened(e.body))
      && (id in u && !e.body.CreateColl? ==> u[id] == Edited(env, t[id], e.body) && u[id].config == t[id].config)
  {
  }

  lemma {:induction false} LiveSettled(env: Env, t: Table, es: seq<Entry>, id: nat)
    requires FitsAll(env, t, es) && FreshIds(es) && id in SteppedAll(env, t, es)
    ensures var h := SteppedAll(env, t, es)[id]; Settled(h, EffectOf(env, h.config, es, id))
  {
    if es == [] {
      NothingSettles(t[id]);
    } else {
      var front, e := es[..|es| - 1], es[|es| - 1];
      var before, h := SteppedAll(env, t, front), SteppedAll(env, t, es)[id];
      if e.collId != id {
        FitsOthers(env, before, e, id);
        LiveSettled(env, t, front, id);
      } else {
        FitsOwn(env, before, e);
        if e.body.CreateColl? {
          NoEffect(env, h.config, front, id);
          NothingSettles(h);
        } else {
          LiveSettled(env, t, front, id);
          EffectInside(env, h.config, front, id);
          SettledStays(env, before[id], EffectOf(env, h.config, front, id), e.body);
        }
      }
    }
  }

  lemma {:induction false} ConfigStays(env: Env, t: Table, es: seq<Entry>, n: nat, id: nat)
    requires FitsAll(env, t, es) && FreshIds(es) && n < |es| && es[n].collId == id
    requires id in SteppedAll(env, t, es[..n]) && id in SteppedAll(env, t, es)
    ensures SteppedAll(env, t, es)[id].config == SteppedAll(env, t, es[..n])[id].config
  {
    var front, e := es[..|es| - 1], es[|es| - 1];
    var before := SteppedAll(env, t, front);
    assert front[..n] == es[..n];
    if e.collId == id {
      FitsOwn(env, before, e);
    } else {
      FitsOthers(env, before, e, id);
    }
    if n < |front| {
      ConfigStays(env, t, front, n, id);
    }
  }

  // ----- the second replay --------------------------------------------------

  function NamesIn(t: Table): Names {
    map id | id in t :: t[id].name
  }

  /** The second replay creates the collection anew: its name was taken before its
      creation came up. */
  ghost predicate Reborn(names: Names, past: seq<Entry>, id: nat) {
    exists i :: 0 <= i < |past| && past[i].collId == id && past[i].body.CreateColl? &&
      id !in NamesAfter(names, past[..i])
  }

  lemma RebornSnoc(names: Names, past: seq<Entry>, e: Entry, id: nat)
    ensures Reborn(names, past + [e], id) <==>
      Reborn(names, past, id) || (e.collId == id && e.body.CreateColl? && id !in NamesAfter(names, past))
  {
    var all := past + [e];
    assert all[..|past|] == past;
    forall i | 0 <= i < |past| ensures all[i] == past[i] && all[..i] == past[..i] {
    }
    if Reborn(names, past, id) {
      var i :| 0 <= i < |past| && past[i].collId == id && past[i].body.CreateColl? &&
        id !in NamesAfter(names, past[..i]);
      assert all[i] == past[i] && all[..i] == past[..i];
    }
    if e.collId == id && e.body.CreateColl? && id !in NamesAfter(names, past) {
      assert all[|past|] == e;
    }
  }

  lemma {:induction false} NamesFollow(env: Env, t: Table, es: seq<Entry>)
    ensures NamesIn(SteppedAll(env, t, es)) == NamesAfter(NamesIn(t), es)
  {
    if es != [] {
      NamesFollow(env, t, es[..|es| - 1]);
      NamesStep(env, SteppedAll(env, t, es[..|es| - 1]), es[|es| - 1]);
    }
  }

  lemma NamesStep(env: Env, t: Table, e: Entry)
    ensures NamesIn(Stepped(env, t, e)) == NamesStepped(NamesIn(t), e)
  {
  }

  /** Over the final table, replay is where the run itself was with a collection
      that it created anew, and at the final state of any other with the entries so
      far laid over it. */
  ghost predicate Synced(env: Env, final: Table, live: Table, past: seq<Entry>, id: nat, h: Held) {
    if Reborn(NamesIn(final), past, id) then id in live && h == live[id]
    else id in final && h == Absorbed(final[id], EffectOf(env, final[id].config, past, id))
  }

  ghost predicate InSync(env: Env, final: Table, live: Table, past: seq<Entry>, again: Table) {
    forall id :: id in again ==> Synced(env, final, live, past, id, again[id])
  }

  /** The entry is about collections whose end is known. */
  ghost predicate Foreseen(final: Table, live: Table, e: Entry) {
    e.collId in final ==>
      && (e.collId in live ==> final[e.collId].config == live[e.collId].config)
      && (e.body.DeclareKey? ==> e.body.key in final[e.collId].kinds)
  }

  lemma OwnInSync(env: Env, final: Table, live: Table, past: seq<Entry>, again: Table, e: Entry)
    requires InSync(env, final, live, past, again) && Fits(env, live, e) && Foreseen(final, live, e)
    requires NamesIn(again) == NamesAfter(NamesIn(final), past)
    ensures Readable(env, again, e)
    ensures var after, id := Stepped(env, again, e), e.collId;
      id in after ==> Synced(env, final, Stepped(env, live, e), past + [e], id, after[id])
  {
    var id := e.collId;
    FitsOwn(env, live, e);
    RebornSnoc(NamesIn(final), past, e, id);
    assert (past + [e])[..|past|] == past;
    assert id in again <==> id in NamesAfter(NamesIn(final), past);
    hide Reborn, NamesAfter, Prepared;
    if id in again {
      assert Synced(env, final, live, past, id, again[id]);
      if !Reborn(NamesIn(final), past, id) {
        EditAbsorbs(env, final[id], EffectOf(env, final[id].config, past, id), e.body);
      }
    }
  }

  lemma OtherInSync(env: Env, final: Table, live: Table, past: seq<Entry>, again: Table, e: Entry, id: nat)
    requires InSync(env, final, live, past, again) && Fits(env, live, e) && id != e.collId &&
      id in Stepped(env, again, e)
    ensures Synced(env, final, Stepped(env, live, e), past + [e], id, Stepped(env, again, e)[id])
  {
    FitsOthers(env, live, e, id);
    RebornSnoc(NamesIn(final), past, e, id);
    assert (past + [e])[..|past|] == past;
    assert id in again && Stepped(env, again, e)[id] == again[id];
    hide Reborn, NamesAfter;
    assert Synced(env, final, live, past, id, again[id]);
  }

  lemma StepInSync(env: Env, final: Table, live: Table, past: seq<Entry>, again: Table, e: Entry)
    requires InSync(env, final, live, past, again) && Fits(env, live, e) && Foreseen(final, live, e)
    requires NamesIn(again) == NamesAfter(NamesIn(final), past)
    ensures Readable(env, again, e) && InSync(env, final, Stepped(env, live, e), past + [e], Stepped(env, again, e))
  {
    hide Fits, Foreseen, Stepped, Synced, Readable, NamesAfter;
    OwnInSync(env, final, live, past, again, e);
    forall id | id in Stepped(env, again, e)
      ensures Synced(env, final, Stepped(env, live, e), past + [e], id, Stepped(env, again, e)[id])
    {
      if id != e.collId {
        OtherInSync(env, final, live, past, again, e, id);
      }
    }
  }

  /** What an entry of the journal says about a collection that survives it. */
  lemma ForeseenAt(env: Env, t: Table, es: seq<Entry>, n: nat)
    requires FitsAll(env, t, es) && FreshIds(es) && n < |es|
    ensures Foreseen(SteppedAll(env, t, es), SteppedAll(env, t, es[..n]), es[n])
  {
    hide FitsAll, FreshIds, SteppedAll;
    var final, e := SteppedAll(env, t, es), es[n];
    if e.collId in final {
      if e.collId in SteppedAll(env, t, es[..n]) {
        ConfigStays(env, t, es, n, e.collId);
      }
      if e.body.DeclareKey? {
        LiveSettled(env, t, es, e.collId);
        KeysGrow(env, final[e.collId].config, es, n, e.collId);
      }
    }
  }

  lemma {:induction false} SecondReplay(env: Env, t: Table, es: seq<Entry>, n: nat)
    requires FitsAll(env, t, es) && FreshIds(es) && n <= |es|
    ensures var final := SteppedAll(env, t, es);
      && ReadableAll(env, final, es[..n])
      && InSync(env, final, SteppedAll(env, t, es[..n]), es[..n], SteppedAll(env, final, es[..n]))
  {
    var final := SteppedAll(env, t, es);
    if n == 0 {
      NothingInSync(env, t, final);
    } else {
      var past, e := es[..n - 1], es[n - 1];
      assert es[..n][..n - 1] == past && es[..n] == past + [e];
      hide FitsAll, FreshIds, Stepped, InSync, Readable, NamesAfter;
      SecondReplay(env, t, es, n - 1);
      PrefixFits(env, t, es, n);
      ForeseenAt(env, t, es, n - 1);
      NamesFollow(env, final, past);
      StepInSync(env, final, SteppedAll(env, t, past), past, SteppedAll(env, final, past), e);
    }
  }

  lemma NothingInSync(env: Env, t: Table, final: Table)
    ensures InSync(env, final, t, [], final)
  {
    forall id | id in final ensures Synced(env, final, t, [], id, final[id]) {
      Refit.OutsideNothing(final[id].points);
    }
  }

  lemma {:induction false} PrefixFits(env: Env, t: Table, es: seq<Entry>, n: nat)
    requires FitsAll(env, t, es) && 0 < n <= |es|
    ensures FitsAll(env, t, es[..n - 1]) && Fits(env, SteppedAll(env, t, es[..n - 1]), es[n - 1])
  {
    if n < |es| {
      PrefixFits(env, t, es[..|es| - 1], n);
      assert es[..|es| - 1][..n - 1] == es[..n - 1];
    }
  }

  /** Whatever replay still has at the end, it has as the run left it: exactly what it
      created anew, and the rest with its own words on aliases once more. */
  lemma SecondReplayAgrees(env: Env, t: Table, es: seq<Entry>)
    requires FitsAll(env, t, es) && FreshIds(es)
    ensures var final := SteppedAll(env, t, es);
      var again := SteppedAll(env, final, es);
      && ReadableAll(env, final, es)
      && Within(again, final)
      && forall id :: id in again ==>
           again[id] == if Reborn(NamesIn(final), es, id) then final[id]
                        else final[id].(aliases := Fold(final[id].aliases, WordsOn(es, id)))
  {
    var final := SteppedAll(env, t, es);
    var again := SteppedAll(env, final, es);
    SecondReplay(env, t, es, |es|);
    assert es[..|es|] == es;
    forall id | id in again
      ensures id in final && Agrees(again[id], final[id])
      ensures again[id] == if Reborn(NamesIn(final), es, id) then final[id]
                           else final[id].(aliases := Fold(final[id].aliases, WordsOn(es, id)))
    {
      SecondReplayOf(env, t, es, id);
    }
  }

  lemma SecondReplayOf(env: Env, t: Table, es: seq<Entry>, id: nat)
    requires FitsAll(env, t, es) && FreshIds(es)
    requires var final := SteppedAll(env, t, es);
      InSync(env, final, final, es, SteppedAll(env, final, es)) && id in SteppedAll(env, final, es)
    ensures var final := SteppedAll(env, t, es);
      var again := SteppedAll(env, final, es);
      && id in final && Agrees(again[id], final[id])
      && again[id] == if Reborn(NamesIn(final), es, id) then final[id]
                      else final[id].(aliases := Fold(final[id].aliases, WordsOn(es, id)))
  {
    var final := SteppedAll(env, t, es);
    var h := SteppedAll(env, final, es)[id];
    assert Synced(env, final, final, es, id, h);
    if !Reborn(NamesIn(final), es, id) {
      LiveSettled(env, t, es, id);
      WordsAre(env, final[id].config, es, id);
      hide *;
    }
  }

  /** What the entries say about the aliases of one collection. */
  function WordsOn(es: seq<Entry>, id: nat): seq<Word> {
    if es == [] then []
    else
      var before, e := WordsOn(es[..|es| - 1], id), es[|es| - 1];
      if e.collId == id && e.body.SetAlias? then before + [(e.body.create, e.body.alias)] else before
  }

  lemma {:induction false} WordsAre(env: Env, config: Config, es: seq<Entry>, id: nat)
    ensures EffectOf(env, config, es, id).words == WordsOn(es, id)
  {
    if es != [] {
      WordsAre(env, config, es[..|es| - 1], id);
    }
  }

  /** Everything the first table holds, the second holds too. */
  ghost predicate Within(t: Table, u: Table) {
    forall id :: id in t ==> id in u && Agrees(t[id], u[id])
  }

  /** The same collections, order and repetitions in their alias lists apart. */
  ghost predicate SameTable(t: Table, u: Table) {
    t.Keys == u.Keys && Within(t, u)
  }

  // ----- alias lists --------------------------------------------------------

  /** `l` without what the words delete. */
  function Cut(l: seq<string>, words: seq<Word>): seq<string> {
    if words == [] then l
    else
      var before, (create, alias) := Cut(l, words[..|words| - 1]), words[|words| - 1];
      if create then before else Retained(before, alias)
  }

  lemma {:induction false} RetainedJoin(l: seq<string>, m: seq<string>, alias: string)
    ensures Retained(l + m, alias) == Retained(l, alias) + Retained(m, alias)
  {
    if m == [] {
      assert l + m == l;
    } else {
      RetainedJoin(l, m[..|m| - 1], alias);
      assert (l + m)[..|l + m| - 1] == l + m[..|m| - 1];
    }
  }

  lemma {:induction false} FoldSplits(l: seq<string>, m: seq<string>, words: seq<Word>)
    ensures Fold(l + m, words) == Cut(l, words) + Fold(m, words)
    ensures Cut(l + m, words) == Cut(l, words) + Cut(m, words)
  {
    if words != [] {
      var front := words[..|words| - 1];
      var (create, alias) := words[|words| - 1];
      FoldSplits(l, m, front);
      RetainedJoin(Cut(l, front), Fold(m, front), alias);
      RetainedJoin(Cut(l, front), Cut(m, front), alias);
      assert Cut(l, front) + Fold(m, front) + [alias] == Cut(l, front) + (Fold(m, front) + [alias]);
    }
  }

  lemma {:induction false} CutMembers(l: seq<string>, words: seq<Word>, a: string)
    ensures a in Cut(l, words) <==> a in l && (false, a) !in words
  {
    if words != [] {
      var front := words[..|words| - 1];
      var (create, alias) := words[|words| - 1];
      CutMembers(l, front, a);
      assert words == front + [(create, alias)];
      assert (false, a) in words <==> (false, a) in front || (!create && alias == a);
    }
  }

  lemma {:induction false} RetainedAll(l: seq<string>, alias: string)
    requires alias !in l
    ensures Retained(l, alias) == l
  {
    if l != [] {
      RetainedAll(l[..|l| - 1], alias);
    }
  }

  lemma {:induction false} CutNothing(l: seq<string>, words: seq<Word>)
    requires forall a :: a in l ==> (false, a) !in words
    ensures Cut(l, words) == l
  {
    if words != [] {
      var front := words[..|words| - 1];
      var (create, alias) := words[|words| - 1];
      assert words == front + [(create, alias)];
      CutNothing(l, front);
      if !create {
        RetainedAll(l, alias);
      }
    }
  }

  lemma {:induction false} LastWordSaid(words: seq<Word>, a: string)
    ensures LastWord(words, a).Some? ==> (LastWord(words, a).value, a) in words
    ensures LastWord(words, a).None? ==> (true, a) !in words && (false, a) !in words
  {
    if words != [] {
      var front := words[..|words| - 1];
      LastWordSaid(front, a);
      assert words == front + [words[|words| - 1]];
    }
  }

  /** Every alias that is set is also deleted, before or after. */
  ghost predicate Undone(words: seq<Word>) {
    forall a :: (true, a) in words ==> (false, a) in words
  }

  lemma UndoneIff(words: seq<Word>)
    ensures Undone(words) <==> Cut(Fold([], words), words) == []
  {
    var f := Fold([], words);
    if Undone(words) {
      if Cut(f, words) != [] {
        var a := Cut(f, words)[0];
        CutMembers(f, words, a);
        FoldMembers([], words, a);
        LastWordSaid(words, a);
      }
    }
    if Cut(f, words) == [] {
      forall a | (true, a) in words ensures (false, a) in words {
        CutMembers(f, words, a);
        FoldMembers([], words, a);
        LastWordSaid(words, a);
      }
    }
  }

  /** Saying the same words about a list again changes nothing exactly when every
      alias that they set they also delete. */
  lemma FoldTwiceIff(l: seq<string>, words: seq<Word>)
    ensures Fold(Fold(l, words), words) == Fold(l, words) <==> Undone(words)
  {
    var c, f := Cut(l, words), Fold([], words);
    assert l + [] == l;
    FoldSplits(l, [], words);
    FoldSplits(c + f, [], words);
    assert c + f + [] == c + f;
    FoldSplits(c, f, words);
    forall a | a in c ensures (false, a) !in words {
      CutMembers(l, words, a);
    }
    CutNothing(c, words);
    UndoneIff(words);
    hide *;
    assert Fold(l, words) == c + f && Fold(c + f, words) == c + Cut(f, words) + f;
    if c + Cut(f, words) + f == c + f {
      assert |Cut(f, words)| == 0;
    } else {
      assert Cut(f, words) == [] ==> c + Cut(f, words) + f == c + f;
    }
  }

  /** The alias list of a collection is its first list with the words said over it. */
  lemma {:induction false} LiveFold(env: Env, t: Table, es: seq<Entry>, id: nat) returns (l: seq<string>)
    requires FitsAll(env, t, es) && FreshIds(es) && id in SteppedAll(env, t, es)
    ensures SteppedAll(env, t, es)[id].aliases == Fold(l, WordsOn(es, id))
  {
    if es == [] {
      l := t[id].aliases;
    } else {
      var front, e := es[..|es| - 1], es[|es| - 1];
      var before := SteppedAll(env, t, front);
      if e.collId != id {
        FitsOthers(env, before, e, id);
        l := LiveFold(env, t, front, id);
      } else {
        FitsOwn(env, before, e);
        if e.body.CreateColl? {
          NoWords(front, id);
          l := e.body.aliases;
        } else {
          l := LiveFold(env, t, front, id);
          var w := WordsOn(front, id);
          assert e.body.SetAlias? ==> (w + [(e.body.create, e.body.alias)])[..|w|] == w;
        }
      }
    }
  }

  lemma {:induction false} NoWords(es: seq<Entry>, id: nat)
    requires forall i :: 0 <= i < |es| ==> es[i].collId != id
    ensures WordsOn(es, id) == []
  {
    if es != [] {
      NoWords(es[..|es| - 1], id);
    }
  }

  /** No alias that the second replay sets again stays listed twice. */
  ghost predicate ListsSettle(final: Table, es: seq<Entry>) {
    forall id :: id in final && !Reborn(NamesIn(final), es, id) ==> Undone(WordsOn(es, id))
  }

  // ----- names alone decide -------------------------------------------------

  /** Replaying the creations, renames and drops over the final names, no
      collection loses its place. */
  predicate Survive(names: Names, es: seq<Entry>) {
    names.Keys <= NamesAfter(names, es).Keys
  }

  /** Replaying a journal over the table it led to gives the same collections exactly
      when none loses its place among the names, and the same alias lists exactly
      when, besides, every alias that the journal sets on a collection it also
      deletes there, unless replay creates the collection anew. */
  lemma TableIff(env: Env, t: Table, es: seq<Entry>)
    requires FitsAll(env, t, es) && FreshIds(es)
    ensures var final := SteppedAll(env, t, es);
      var again := SteppedAll(env, final, es);
      && (SameTable(again, final) <==> Survive(NamesIn(final), es))
      && (again == final <==> Survive(NamesIn(final), es) && ListsSettle(final, es))
  {
    var final := SteppedAll(env, t, es);
    var again := SteppedAll(env, final, es);
    SecondReplayAgrees(env, t, es);
    NamesFollow(env, final, es);
    forall id | id in final && !Reborn(NamesIn(final), es, id)
      ensures Fold(final[id].aliases, WordsOn(es, id)) == final[id].aliases <==> Undone(WordsOn(es, id))
    {
      SaidAgain(env, t, es, id);
    }
    assert NamesIn(again).Keys == NamesAfter(NamesIn(final), es).Keys;
    hide *;
    SameTablesIff(final, again, es);
  }

  lemma SaidAgain(env: Env, t: Table, es: seq<Entry>, id: nat)
    requires FitsAll(env, t, es) && FreshIds(es) && id in SteppedAll(env, t, es)
    ensures var l, words := SteppedAll(env, t, es)[id].aliases, WordsOn(es, id);
      Fold(l, words) == l <==> Undone(words)
  {
    hide *;
    var l := LiveFold(env, t, es, id);
    FoldTwiceIff(l, WordsOn(es, id));
  }

  /** Tables that agree, and have the lists of the second replay. */
  lemma SameTablesIff(final: Table, again: Table, es: seq<Entry>)
    requires Within(again, final) && NamesIn(again).Keys == NamesAfter(NamesIn(final), es).Keys
    requires forall id :: id in again ==>
      again[id] == if Reborn(NamesIn(final), es, id) then final[id]
                   else final[id].(aliases := Fold(final[id].aliases, WordsOn(es, id)))
    requires forall id :: id in final && !Reborn(NamesIn(final), es, id) ==>
      (Fold(final[id].aliases, WordsOn(es, id)) == final[id].aliases <==> Undone(WordsOn(es, id)))
    ensures SameTable(again, final) <==> Survive(NamesIn(final), es)
    ensures again == final <==> Survive(NamesIn(final), es) && ListsSettle(final, es)
  {
    hide NamesAfter, Reborn, Undone, WordsOn, Fold;
    assert NamesIn(again).Keys == again.Keys && NamesIn(final).Keys == final.Keys;
    assert again.Keys <= final.Keys;
    if Survive(NamesIn(final), es) && ListsSettle(final, es) {
      forall id | id in final ensures id in again && again[id] == final[id] {
      }
    }
    if again == final {
      forall id | id in final && !Reborn(NamesIn(final), es, id) ensures Undone(WordsOn(es, id)) {
        assert again[id] == final[id];
      }
    }
  }

  // ----- runs of the database -----------------------------------------------

  lemma {:induction false} AppliedRun(env: Env, v: Views, t: Table, es: seq<Entry>)
    requires Lists(v, t) && AppliedAll(env, v, es).Some?
    ensures FitsAll(env, t, es) && Lists(AppliedAll(env, v, es).value, SteppedAll(env, t, es))
  {
    if es != [] {
      AppliedRun(env, v, t, es[..|es| - 1]);
      AppliedSteps(env, AppliedAll(env, v, es[..|es| - 1]).value, SteppedAll(env, t, es[..|es| - 1]), es[|es| - 1]);
    }
  }

  lemma {:induction false} ReplayedRun(env: Env, s: State, t: Table, es: seq<Entry>)
    requires Keyed(s.colls) && Lists(ViewsOf(s.colls), t) && ReadableAll(env, t, es)
    ensures var r := ReplayedAll(env, s, es);
      r.Success? && Keyed(r.value.colls) && Lists(ViewsOf(r.value.colls), SteppedAll(env, t, es))
  {
    if es != [] {
      ReplayedRun(env, s, t, es[..|es| - 1]);
      ReplayedSteps(env, ReplayedAll(env, s, es[..|es| - 1]).value, SteppedAll(env, t, es[..|es| - 1]), es[|es| - 1]);
    }
  }

  /** The collections of a registry by id. */
  ghost function Collected(s: State): Table {
    ById(ViewsOf(s.colls))
  }

  lemma CollectedLists(s: State, t: Table)
    requires Keyed(s.colls)
    ensures Lists(ViewsOf(s.colls), t) <==> t == Collected(s)
  {
    SameIds(s.colls);
    ByIdLists(ViewsOf(s.colls));
    if Lists(ViewsOf(s.colls), t) {
      ListsOne(ViewsOf(s.colls), t, Collected(s));
    }
  }

  /** The journal `es` takes what `start` shows to what `final` shows. */
  ghost predicate Leads(env: Env, start: State, es: seq<Entry>, final: State) {
    && Keyed(start.colls) && Keyed(final.colls) && FreshIds(es)
    && AppliedAll(env, ViewsOf(start.colls), es) == Some(ViewsOf(final.colls))
  }

  lemma LeadsTable(env: Env, start: State, es: seq<Entry>, final: State)
    requires Leads(env, start, es, final)
    ensures FitsAll(env, Collected(start), es) && SteppedAll(env, Collected(start), es) == Collected(final)
  {
    CollectedLists(start, Collected(start));
    AppliedRun(env, ViewsOf(start.colls), Collected(start), es);
    CollectedLists(final, SteppedAll(env, Collected(start), es));
  }

  lemma ReplayTable(env: Env, base: State, s: State, es: seq<Entry>)
    requires Keyed(s.colls) && Checkpointed(base, s) && ReadableAll(env, Collected(s), es)
    ensures var r := ReplayedAll(env, base, es);
      r.Success? && Keyed(r.value.colls) && Collected(r.value) == SteppedAll(env, Collected(s), es)
  {
    CollectedLists(s, Collected(s));
    ReplayedRun(env, base, Collected(s), es);
    CollectedLists(ReplayedAll(env, base, es).value, SteppedAll(env, Collected(s), es));
  }

  /** Replaying a whole journal over the state it led to never fails and shows
      nothing that state did not have. It is idempotent, alias lists as sets, if and
      only if no collection loses its place among the names; and alias lists as
      lists, if and only if besides they settle. */
  lemma IdempotentIff(env: Env, start: State, es: seq<Entry>, final: State, base: State)
    requires Leads(env, start, es, final) && Checkpointed(base, final)
    ensures var r := ReplayedAll(env, base, es);
      && r.Success? && Keyed(r.value.colls) && Within(Collected(r.value), Collected(final))
      && (SameTable(Collected(r.value), Collected(final)) <==> Survive(NamesIn(Collected(final)), es))
      && (Collected(r.value) == Collected(final) <==>
          Survive(NamesIn(Collected(final)), es) && ListsSettle(Collected(final), es))
  {
    LeadsTable(env, start, es, final);
    SecondReplayAgrees(env, Collected(start), es);
    TableIff(env, Collected(start), es);
    ReplayTable(env, base, final, es);
  }

  /** Every run of operations leads from its first state to its last. */
  lemma RunLeads(env: Env, s: State, ops: seq<Op>)
    requires Wf(s) && SqrtLaw(env.sqrt) && AllRecoverable(ops) && AllBuilt(env, s, ops)
    ensures Leads(env, s, Ran(env, s, ops).journal, Ran(env, s, ops).state)
  {
    RunRefines(true, env, s, ops);
    AlikeIs(AppliedAll(env, ViewsOf(s.colls), Ran(env, s, ops).journal).value, ViewsOf(Ran(env, s, ops).state.colls));
    JournalFresh(env, s, ops);
  }

  // ----- names that are not reused ------------------------------------------

  predicate Gives(e: Entry, name: string) {
    match e.body
    case CreateColl(given, _, _) => given == name
    case Rename(given) => given == name
    case _ => false
  }

  /** The collection had the name at the start or is given it. */
  ghost predicate Owns(names: Names, es: seq<Entry>, id: nat, name: string) {
    || (id in names && names[id] == name)
    || (exists i :: 0 <= i < |es| && es[i].collId == id && Gives(es[i], name))
  }

  ghost predicate OneOwner(names: Names, es: seq<Entry>) {
    forall name, c, d :: Owns(names, es, c, name) && Owns(names, es, d, name) ==> c == d
  }

  ghost predicate Owned(start: Names, es: seq<Entry>, names: Names) {
    forall id :: id in names ==> Owns(start, es, id, names[id])
  }

  lemma {:induction false} StaysOwned(start: Names, es: seq<Entry>, names: Names, n: nat)
    requires n <= |es| && Owned(start, es, names)
    ensures Owned(start, es, NamesAfter(names, es[..n]))
  {
    if n > 0 {
      var e := es[n - 1];
      assert es[..n][..n - 1] == es[..n - 1] && es[..n][n - 1] == e;
      StaysOwned(start, es, names, n - 1);
      if e.body.CreateColl? {
        assert Gives(e, e.body.name) && Owns(start, es, e.collId, e.body.name);
      } else if e.body.Rename? {
        assert Gives(e, e.body.newName) && Owns(start, es, e.collId, e.body.newName);
      }
    }
  }

  ghost predicate NotDropped(ids: set<nat>, es: seq<Entry>) {
    forall i :: 0 <= i < |es| && es[i].body.DropColl? ==> es[i].collId !in ids
  }

  lemma NobodyElse(start: Names, es: seq<Entry>, names: Names, id: nat, name: string)
    requires OneOwner(start, es) && Owned(start, es, names) && Owns(start, es, id, name)
    ensures Taken(names, id, name).Keys == names.Keys + {id}
  {
  }

  lemma {:induction false} NobodyLost(start: Names, es: seq<Entry>, names: Names, n: nat)
    requires n <= |es| && OneOwner(start, es) && Owned(start, es, names) && NotDropped(names.Keys, es)
    ensures names.Keys <= NamesAfter(names, es[..n]).Keys
  {
    if n > 0 {
      var e, before := es[n - 1], NamesAfter(names, es[..n - 1]);
      assert es[..n][..n - 1] == es[..n - 1] && es[..n][n - 1] == e;
      NobodyLost(start, es, names, n - 1);
      StaysOwned(start, es, names, n - 1);
      if e.body.CreateColl? || e.body.Rename? {
        var name := if e.body.CreateColl? then e.body.name else e.body.newName;
        assert Gives(e, name) && Owns(start, es, e.collId, name);
        NobodyElse(start, es, before, e.collId, name);
      }
    }
  }

  lemma {:induction false} DroppedIsGone(env: Env, t: Table, es: seq<Entry>, i: nat)
    requires FitsAll(env, t, es) && FreshIds(es) && i < |es| && es[i].body.DropColl?
    ensures es[i].collId !in SteppedAll(env, t, es)
  {
    var front, e := es[..|es| - 1], es[|es| - 1];
    var before := SteppedAll(env, t, front);
    if e.collId == es[i].collId {
      FitsOwn(env, before, e);
    } else {
      FitsOthers(env, before, e, es[i].collId);
    }
    if i < |front| {
      DroppedIsGone(env, t, front, i);
    }
  }

  lemma OneOwnerSurvives(env: Env, t: Table, es: seq<Entry>)
    requires FitsAll(env, t, es) && FreshIds(es) && OneOwner(NamesIn(t), es)
    ensures Survive(NamesIn(SteppedAll(env, t, es)), es)
  {
    var start, final := NamesIn(t), NamesIn(SteppedAll(env, t, es));
    assert es[..|es|] == es;
    NamesFollow(env, t, es);
    StaysOwned(start, es, start, |es|);
    forall i | 0 <= i < |es| && es[i].body.DropColl? ensures es[i].collId !in final.Keys {
      DroppedIsGone(env, t, es, i);
    }
    NobodyLost(start, es, final, |es|);
  }

  /** When the journal gives no name to two collections, nor a name that another
      collection had at the start, replaying it twice is harmless. */
  lemma IdempotentWithoutReuse(env: Env, start: State, es: seq<Entry>, final: State, base: State)
    requires Leads(env, start, es, final) && Checkpointed(base, final) && OneOwner(NamesIn(Collected(start)), es)
    ensures var r := ReplayedAll(env, base, es);
      r.Success? && Keyed(r.value.colls) && SameTable(Collected(r.value), Collected(final))
  {
    LeadsTable(env, start, es, final);
    OneOwnerSurvives(env, Collected(start), es);
    IdempotentIff(env, start, es, final, base);
  }

  // ----- a crash inside a commit --------------------------------------------

  ghost predicate Numbered(s: Sys) {
    FreshIds(s.disk.journal) && AllBelow(s.disk.journal, s.mem.nextId)
  }

  lemma OperateKeepsNumbered(exact: bool, env: Env, s: Sys, t: Sys, op: Op)
    requires Wf(s.mem) && Numbered(s) && Operates(exact, env, s, t, op)
    ensures Numbered(t)
  {
    LoggedIds(env, s.mem, op);
    hide Step;
  }

  lemma ReopenKeepsNumbered(env: Env, s: Sys, t: Sys)
    requires Numbered(s) && Reopens(env, s, t)
    ensures Numbered(t)
  {
    hide DiskOk, LoadedFrom, ReplayedAll;
    var base: State :| LoadedFrom(env, t.disk, base) && Continues(env, base, t.disk, t.mem);
  }

  lemma CommitDropsJournal(s: Sys, t: Sys)
    requires Checkpoints(s, t) || Vacuums(s, t)
    ensures t.disk.journal == []
  {
  }

  lemma StepKeepsNumbered(exact: bool, env: Env, s: Sys, t: Sys)
    requires Wf(s.mem) && Numbered(s) && SysStep(exact, env, s, t)
    ensures Numbered(t)
  {
    hide Numbered, Operates, Reopens, Checkpoints, Vacuums;
    if Works(exact, env, s, t) {
      var op :| Operates(exact, env, s, t, op);
      OperateKeepsNumbered(exact, env, s, t, op);
    } else if Reopens(env, s, t) {
      ReopenKeepsNumbered(env, s, t);
    } else {
      CommitDropsJournal(s, t);
      NothingNumbered(t);
    }
  }

  lemma InvWf(exact: bool, env: Env, s: Sys)
    requires Inv(exact, env, s)
    ensures Wf(s.mem)
  {
  }

  lemma NothingNumbered(t: Sys)
    requires t.disk.journal == []
    ensures Numbered(t)
  {
  }

  lemma RunStep(exact: bool, env: Env, run: seq<Sys>, i: nat)
    requires IsRun(exact, env, run) && i < |run|
    ensures run[0].disk.journal == []
    ensures i > 0 ==> SysStep(exact, env, run[i - 1], run[i])
  {
    hide SysStep;
  }

  lemma {:induction false} ReachableNumbered(exact: bool, env: Env, run: seq<Sys>, i: nat)
    requires SqrtLaw(env.sqrt) && IsRun(exact, env, run) && i < |run|
    ensures Numbered(run[i])
  {
    hide *;
    RunStep(exact, env, run, i);
    if i == 0 {
      NothingNumbered(run[0]);
    } else {
      ReachableNumbered(exact, env, run, i - 1);
      ReachableInv(exact, env, run, i - 1);
      InvWf(exact, env, run[i - 1]);
      StepKeepsNumbered(exact, env, run[i - 1], run[i]);
    }
  }

  /** The file of a reachable state leads to its memory. */
  lemma ReachableLeads(env: Env, run: seq<Sys>, i: nat, start: State)
    requires SqrtLaw(env.sqrt) && IsRun(true, env, run) && i < |run|
    requires !run[i].disk.torn && AllBuildable(run[i].disk.journal)
    requires DiskOk(env, run[i].disk) ==> start.colls == Loaded(env, run[i].disk)
    ensures Leads(env, start, run[i].disk.journal, run[i].mem)
  {
    ReachableInv(true, env, run, i);
    ReachableNumbered(true, env, run, i);
    SoundIs(run[i].disk.journal);
    LoadedShows(env, run[i].disk);
    AlikeIs(AppliedAll(env, Saved(run[i].disk), run[i].disk.journal).value, ViewsOf(run[i].mem.colls));
  }

  lemma CommittedShows(env: Env, s: Sys, t: Sys)
    requires Inv(true, env, s) && (Checkpoints(s, t) || Vacuums(s, t))
    ensures DiskOk(env, t.disk) && Saved(t.disk) == ViewsOf(s.mem.colls)
  {
    hide Inv, Checkpoints, Vacuums;
    if Checkpoints(s, t) {
      CheckpointKeepsInv(true, env, s, t);
    } else {
      VacuumKeepsInv(true, env, s, t);
    }
    AlikeIs(Saved(t.disk), ViewsOf(s.mem.colls));
  }

  /** A checkpoint or vacuum that crashes with the new file in place and the old
      journal still beside it: reopening succeeds, shows nothing that was not
      there, and shows everything exactly when the names say so. */
  lemma CommitWindow(env: Env, run: seq<Sys>, i: nat, t: Sys, base: State)
    requires SqrtLaw(env.sqrt) && IsRun(true, env, run) && i < |run|
    requires !run[i].disk.torn && AllBuildable(run[i].disk.journal)
    requires Checkpoints(run[i], t) || Vacuums(run[i], t)
    requires DiskOk(env, t.disk) ==> base.colls == Loaded(env, t.disk)
    ensures DiskOk(env, t.disk)
    ensures var mem, journal := run[i].mem, run[i].disk.journal;
      var r := ReplayedAll(env, base, journal);
      && r.Success? && Keyed(r.value.colls) && Within(Collected(r.value), Collected(mem))
      && (SameTable(Collected(r.value), Collected(mem)) <==> Survive(NamesIn(Collected(mem)), journal))
      && (Collected(r.value) == Collected(mem) <==>
          Survive(NamesIn(Collected(mem)), journal) && ListsSettle(Collected(mem), journal))
  {
    var s := run[i];
    ReachableInv(true, env, run, i);
    CommittedShows(env, s, t);
    LoadedShows(env, t.disk);
    var start := State(if DiskOk(env, s.disk) then Loaded(env, s.disk) else map[], map[], 0);
    ReachableLeads(env, run, i, start);
    hide *;
    assert Checkpointed(base, s.mem);
    IdempotentIff(env, start, s.disk.journal, s.mem, base);
  }

  // ----- a collection lost --------------------------------------------------

  lemma RanOne(env: Env, s: State, ops: seq<Op>, op: Op)
    ensures var t, o := Ran(env, s, ops), Step(env, Ran(env, s, ops).state, op);
      Ran(env, s, ops + [op]) == Trace(o.state, t.journal + o.logged)
  {
    assert (ops + [op])[..|ops|] == ops;
  }

  /** The id registered under a name, if any. */
  function IdAt(s: State, name: string): Option<nat> {
    if name in s.colls then Some(s.colls[name].id) else None
  }

  lemma RenameMoves(s: State, from: string, to: string, other: string)
    requires IdAt(s, from).Some? && IdAt(s, to).None? && ValidName(to) && other != from && other != to
    ensures var o := Renamed(s, from, to);
      && o.logged == [Entry(IdAt(s, from).value, Rename(to))]
      && IdAt(o.state, to) == IdAt(s, from) && IdAt(o.state, from).None? && IdAt(o.state, other) == IdAt(s, other)
  {
  }

  /** Two renames of one collection and one of another to the name in between. */
  function Shuffle(a: string, b: string, between: string, last: string): seq<Op> {
    [] + [RenameTo(a, between)] + [RenameTo(between, last)] + [RenameTo(b, between)]
  }

  function ShuffleJournal(a: nat, b: nat, between: string, last: string): seq<Entry> {
    [] + [Entry(a, Rename(between))] + [Entry(a, Rename(last))] + [Entry(b, Rename(between))]
  }

  lemma RanShuffle(env: Env, s: State, a: string, b: string, between: string, last: string)
    ensures var x := Renamed(s, a, between);
      var y := Renamed(x.state, between, last);
      var z := Renamed(y.state, b, between);
      Ran(env, s, Shuffle(a, b, between, last)) == Trace(z.state, [] + x.logged + y.logged + z.logged)
  {
    assert Ran(env, s, []) == Trace(s, []);
    RanOne(env, s, [], RenameTo(a, between));
    RanOne(env, s, [] + [RenameTo(a, between)], RenameTo(between, last));
    RanOne(env, s, [] + [RenameTo(a, between)] + [RenameTo(between, last)], RenameTo(b, between));
  }

  /** Both collections are there, under new names. */
  lemma ShuffleRuns(env: Env, s: State, a: string, b: string, between: string, last: string)
    requires IdAt(s, a).Some? && IdAt(s, b).Some? && IdAt(s, between).None? && IdAt(s, last).None?
    requires a != b && between != last && ValidName(between) && ValidName(last)
    ensures var t := Ran(env, s, Shuffle(a, b, between, last));
      && t.journal == ShuffleJournal(IdAt(s, a).value, IdAt(s, b).value, between, last)
      && IdAt(t.state, last) == IdAt(s, a) && IdAt(t.state, between) == IdAt(s, b)
  {
    RanShuffle(env, s, a, b, between, last);
    var x := Renamed(s, a, between).state;
    var y := Renamed(x, between, last).state;
    RenameMoves(s, a, between, b);
    RenameMoves(s, a, between, last);
    RenameMoves(x, between, last, b);
    RenameMoves(y, b, between, last);
  }

  lemma ShuffleNames(names: Names, a: nat, b: nat, between: string, last: string)
    requires a != b && names[a := last][b := between] == names
    ensures b !in NamesAfter(names, ShuffleJournal(a, b, between, last))
  {
    var x, y, z := Entry(a, Rename(between)), Entry(a, Rename(last)), Entry(b, Rename(between));
    assert NamesAfter(names, []) == names;
    NamesAfterOne(names, [], x);
    NamesAfterOne(names, [] + [x], y);
    NamesAfterOne(names, [] + [x] + [y], z);
  }

  lemma NamesAfterOne(names: Names, es: seq<Entry>, e: Entry)
    ensures NamesAfter(names, es + [e]) == NamesStepped(NamesAfter(names, es), e)
  {
    assert (es + [e])[..|es|] == es;
  }

  lemma {:induction false} NoCreationBuilt(env: Env, s: State, ops: seq<Op>)
    requires forall i :: 0 <= i < |ops| ==> !ops[i].Create?
    ensures AllBuilt(env, s, ops)
  {
    if ops != [] {
      NoCreationBuilt(env, s, ops[..|ops| - 1]);
    }
  }

  /** With a name reused, a crash between the commit and the end of the journal
      loses a collection that was there all along. */
  lemma LostCollection(env: Env, base: State, s: State, a: string, b: string, between: string, last: string)
    requires Wf(s) && SqrtLaw(env.sqrt)
    requires IdAt(s, a).Some? && IdAt(s, b).Some? && IdAt(s, between).None? && IdAt(s, last).None?
    requires a != b && between != last && ValidName(between) && ValidName(last)
    requires Checkpointed(base, Ran(env, s, Shuffle(a, b, between, last)).state)
    ensures var t := Ran(env, s, Shuffle(a, b, between, last));
      var r := ReplayedAll(env, base, t.journal);
      r.Success? && IdAt(s, b).value in Collected(t.state) && IdAt(s, b).value !in Collected(r.value)
  {
    var ops := Shuffle(a, b, between, last);
    NoCreationBuilt(env, s, ops);
    ShuffleRuns(env, s, a, b, between, last);
    RunLeads(env, s, ops);
    var t := Ran(env, s, ops);
    ReplayNames(env, s, t.journal, t.state, base);
    TwoNames(s, a, b);
    TwoNames(t.state, last, between);
    var names, id := NamesIn(Collected(t.state)), IdAt(s, b).value;
    ShuffleNames(names, IdAt(s, a).value, id, between, last);
    assert id in names && id !in NamesAfter(names, t.journal);
  }

  lemma TwoNames(s: State, m: string, n: string)
    requires Keyed(s.colls) && IdAt(s, m).Some? && IdAt(s, n).Some? && m != n
    ensures var c, d, names := IdAt(s, m).value, IdAt(s, n).value, NamesIn(Collected(s));
      c != d && d in names && names[c := m][d := n] == names
  {
    NamedIn(s, m);
    NamedIn(s, n);
    TwoEntries(NamesIn(Collected(s)), IdAt(s, m).value, IdAt(s, n).value, m, n);
  }

  lemma TwoEntries(names: Names, c: nat, d: nat, m: string, n: string)
    requires c in names && d in names && names[c] == m && names[d] == n && m != n
    ensures c != d && names[c := m][d := n] == names
  {
  }

  /** The names after a second replay are computed from names. */
  lemma ReplayNames(env: Env, start: State, es: seq<Entry>, final: State, base: State)
    requires Leads(env, start, es, final) && Checkpointed(base, final)
    ensures var r := ReplayedAll(env, base, es);
      r.Success? && NamesIn(Collected(r.value)) == NamesAfter(NamesIn(Collected(final)), es)
  {
    LeadsTable(env, start, es, final);
    SecondReplayAgrees(env, Collected(start), es);
    ReplayTable(env, base, final, es);
    NamesFollow(env, Collected(final), es);
  }

  lemma NamedIn(s: State, name: string)
    requires Keyed(s.colls) && IdAt(s, name).Some?
    ensures var id := IdAt(s, name).value; id in Collected(s) && NamesIn(Collected(s))[id] == name
  {
    CollectedLists(s, Collected(s));
    assert ViewsOf(s.colls)[name].id == s.colls[name].id;
  }
}
