/** What each operation of the registry does, in its caller's terms: when it succeeds,
    what it then changes and journals, and that it changes nothing else. */
module Effects {
  import opened Core
  import opened Aliases
  import opened Checkpoint
  import opened Collections
  import opened Crashes
  import opened Linear
  import opened PayloadIndex
  import opened Recovery
  import opened Registry
  import opened Words
  import Slots

  // ----- writes to one collection -------------------------------------------

  ghost predicate Holder(s: State, id: nat, name: string) {
    name in s.colls && s.colls[name].id == id
  }

  ghost predicate Registered(s: State, id: nat) {
    exists name :: Holder(s, id, name)
  }

  /** The live points of a collection by their ids. */
  function ById(c: Coll): map<string, Point> {
    Slots.AsMap(PointsOf(c))
  }

  function KindsOf(c: Coll): map<string, IndexKind> {
    Kinds(c.data.indexes)
  }

  ghost predicate SameCollection(c: Coll, e: Coll) {
    e.name == c.name && e.aliases == c.aliases && e.config == c.config && e.id == c.id
  }

  /** One collection changes in its data; names, aliases and all others stay. */
  ghost predicate ChangesOne(s: State, t: State, name: string)
    requires name in s.colls
  {
    && t.aliases == s.aliases && t.nextId == s.nextId && t.colls.Keys == s.colls.Keys
    && SameCollection(s.colls[name], t.colls[name])
    && forall n :: n in s.colls && n != name ==> t.colls[n] == s.colls[n]
  }

  ghost predicate Untouched(s: State, o: Outcome) {
    o.state == s && o.logged == []
  }

  lemma HolderIs(s: State, id: nat, name: string)
    requires Wf(s) && Holder(s, id, name)
    ensures NameOf(IdsOf(s.colls), id) == Some(name) && Registered(s, id)
  {
    assert IdsOf(s.colls)[name] == id;
    NameIs(IdsOf(s.colls), name);
  }

  lemma NoHolder(s: State, id: nat)
    ensures NameOf(IdsOf(s.colls), id).Some? ==> Holder(s, id, NameOf(IdsOf(s.colls), id).value) && Registered(s, id)
    ensures NameOf(IdsOf(s.colls), id).None? ==> !Registered(s, id)
  {
    var at := NameOf(IdsOf(s.colls), id);
    if at.Some? {
      assert Holder(s, id, at.value);
    } else {
      forall name ensures !Holder(s, id, name) {
        assert name in s.colls ==> IdsOf(s.colls)[name] == s.colls[name].id;
      }
    }
  }

  lemma OneChanged(s: State, name: string, e: Coll)
    requires name in s.colls && SameCollection(s.colls[name], e)
    ensures ChangesOne(s, s.(colls := s.colls[name := e]), name)
  {
    hide Slots.Valid;
  }

  /** Writing to a collection that is not there is refused and changes nothing. */
  lemma NowhereDoes(env: Env, s: State, id: nat, batch: seq<Point>, reserved: bool, key: string, kind: IndexKind)
    requires !Registered(s, id)
    ensures var o := Step(env, s, Upsert(id, batch, reserved));
      o.answer == Failure(CollectionNotFound) && Untouched(s, o)
    ensures var o := Step(env, s, CreateIndex(id, key, kind));
      o.answer == Failure(CollectionNotFound) && Untouched(s, o)
  {
    NoHolder(s, id);
  }

  lemma WithPointsKeeps(env: Env, c: Coll, batch: seq<Point>, reserved: bool)
    requires SqrtLaw(env.sqrt) && PrepareAll(c.config, env.sqrt, batch, reserved).Success?
    ensures var e := WithPoints(env, c, batch, reserved);
      && SameCollection(c, e) && KindsOf(e) == KindsOf(c)
      && Keeps(c.config, PointsOf(c), batch, PointsOf(e))
  {
    WithPointsShows(env, c, batch, reserved);
    PrepareAllMeans(c.config, env.sqrt, batch, reserved);
    assert KindsOf(WithPoints(env, c, batch, reserved)) == Shown(WithPoints(env, c, batch, reserved)).kinds;
    hide *;
    PutAllKeepsBatch(c.config, PointsOf(c), batch, PrepareAll(c.config, env.sqrt, batch, reserved).value);
  }

  /** An upsert succeeds exactly when every point keeps the rules. Then each id of the
      batch is live with what is stored for its last version, every other id and
      collection is as before, and the journal grew by one entry with that batch. */
  lemma UpsertDoes(env: Env, s: State, id: nat, batch: seq<Point>, reserved: bool, name: string)
    requires Wf(s) && SqrtLaw(env.sqrt) && Holder(s, id, name)
    ensures var o, config := Step(env, s, Upsert(id, batch, reserved)), s.colls[name].config;
      && (o.answer.Success? <==> AllAcceptable(config, batch, reserved))
      && (o.answer.Failure? ==> Untouched(s, o) && Refused(config, batch, reserved, o.answer.error))
      && (o.answer.Success? ==>
            && o.logged == [Entry(id, UpsertPoints(batch))] && ChangesOne(s, o.state, name)
            && KindsOf(o.state.colls[name]) == KindsOf(s.colls[name])
            && Keeps(config, PointsOf(s.colls[name]), batch, PointsOf(o.state.colls[name])))
  {
    var o, prepared := Step(env, s, Upsert(id, batch, reserved)),
      PrepareAll(s.colls[name].config, env.sqrt, batch, reserved);
    HolderIs(s, id, name);
    UpsertIs(env, s, id, batch, reserved, name);
    assert name in s.colls;
    hide *;
    PrepareAllMeans(s.colls[name].config, env.sqrt, batch, reserved);
    if prepared.Success? {
      WithPointsKeeps(env, s.colls[name], batch, reserved);
      OneChanged(s, name, WithPoints(env, s.colls[name], batch, reserved));
    }
  }

  lemma UpsertIs(env: Env, s: State, id: nat, batch: seq<Point>, reserved: bool, name: string)
    requires NameOf(IdsOf(s.colls), id) == Some(name)
    ensures var o, prepared := Step(env, s, Upsert(id, batch, reserved)),
        PrepareAll(s.colls[name].config, env.sqrt, batch, reserved);
      && (prepared.Failure? ==> o.answer == Failure(prepared.error) && Untouched(s, o))
      && (prepared.Success? ==>
            o == Outcome(s.(colls := s.colls[name := WithPoints(env, s.colls[name], batch, reserved)]),
                         [Entry(id, UpsertPoints(batch))], Success(())))
  {
    hide Slots.Valid, WithPoints, PrepareAll;
  }

  lemma WithoutIdsKeeps(c: Coll, ids: seq<string>)
    ensures var e := WithoutIds(c, ids);
      SameCollection(c, e) && KindsOf(e) == KindsOf(c) && ById(e) == ById(c) - Elems(ids)
  {
    WithoutIdsShows(c, ids);
    assert KindsOf(WithoutIds(c, ids)) == Shown(WithoutIds(c, ids)).kinds;
    Slots.WithoutAllIsMap(PointsOf(c), ids);
  }

  /** A delete succeeds exactly when the collection is there. Then none of the ids is
      live, and every other id and collection is as before. */
  lemma DeleteDoes(env: Env, s: State, id: nat, ids: seq<string>)
    requires Wf(s)
    ensures var o := Step(env, s, Delete(id, ids));
      && (o.answer.Success? <==> Registered(s, id))
      && (o.answer.Failure? ==> Untouched(s, o) && o.answer.error == CollectionNotFound)
      && (o.answer.Success? ==> o.logged == [Entry(id, DeleteIds(ids))])
      && forall name :: Holder(s, id, name) ==>
        && ChangesOne(s, o.state, name)
        && KindsOf(o.state.colls[name]) == KindsOf(s.colls[name])
        && ById(o.state.colls[name]) == ById(s.colls[name]) - Elems(ids)
  {
    hide Slots.Valid;
    NoHolder(s, id);
    forall name | Holder(s, id, name) ensures NameOf(IdsOf(s.colls), id) == Some(name) {
      HolderIs(s, id, name);
    }
    var at := NameOf(IdsOf(s.colls), id);
    if at.Some? {
      WithoutIdsKeeps(s.colls[at.value], ids);
    }
    hide WithoutIds, ById, KindsOf, Wf;
  }

  lemma WithIndexKeeps(env: Env, c: Coll, key: string, kind: IndexKind)
    ensures var e := WithIndex(c, key, kind);
      && SameCollection(c, e) && PointsOf(e) == PointsOf(c)
      && KindsOf(e) == if key in KindsOf(c) then KindsOf(c) else KindsOf(c)[key := kind]
  {
    WithIndexShows(env, c, key, kind);
    assert KindsOf(WithIndex(c, key, kind)) == Shown(WithIndex(c, key, kind)).kinds;
    assert PointsOf(WithIndex(c, key, kind)) == Shown(WithIndex(c, key, kind)).points;
  }

  /** Index keys are not empty, not reserved and not paths, and keep their kind. */
  ghost predicate IndexAllowed(kinds: map<string, IndexKind>, key: string, kind: IndexKind) {
    key != "" && key[0] != '_' && '.' !in key && (key in kinds ==> kinds[key] == kind)
  }

  /** An index declaration succeeds exactly when it is allowed. Then the key has that
      kind, all else is as before, and the journal has it if it is new. */
  lemma IndexDoes(env: Env, s: State, id: nat, key: string, kind: IndexKind, name: string)
    requires Wf(s) && Holder(s, id, name)
    ensures var o, kinds := Step(env, s, CreateIndex(id, key, kind)), KindsOf(s.colls[name]);
      && (o.answer.Success? <==> IndexAllowed(kinds, key, kind))
      && (o.answer.Failure? ==> Untouched(s, o) && o.answer.error == InvalidArgument)
      && (o.answer.Success? ==>
            && o.logged == (if key in kinds then [] else [Entry(id, DeclareKey(key, kind))])
            && ChangesOne(s, o.state, name)
            && PointsOf(o.state.colls[name]) == PointsOf(s.colls[name])
            && KindsOf(o.state.colls[name]) == kinds[key := kind])
  {
    hide Slots.Valid;
    HolderIs(s, id, name);
    WithIndexKeeps(env, s.colls[name], key, kind);
    IndexIs(env, s, id, key, kind, name);
    var kinds := KindsOf(s.colls[name]);
    if key in kinds && kinds[key] == kind {
      assert kinds[key := kind] == kinds;
    }
    SameCollectionSelf(s, name);
    hide *;
    OneChanged(s, name, WithIndex(s.colls[name], key, kind));
  }

  lemma SameCollectionSelf(s: State, name: string)
    requires name in s.colls
    ensures ChangesOne(s, s, name)
  {
  }

  lemma IndexIs(env: Env, s: State, id: nat, key: string, kind: IndexKind, name: string)
    requires NameOf(IdsOf(s.colls), id) == Some(name)
    ensures var o, kinds := Step(env, s, CreateIndex(id, key, kind)), KindsOf(s.colls[name]);
      && (!IndexAllowed(kinds, key, kind) ==> o == Outcome(s, [], Failure(InvalidArgument)))
      && (IndexAllowed(kinds, key, kind) && key in kinds ==> o == Outcome(s, [], Success(())))
      && (IndexAllowed(kinds, key, kind) && key !in kinds ==>
            o == Outcome(s.(colls := s.colls[name := WithIndex(s.colls[name], key, kind)]),
                         [Entry(id, DeclareKey(key, kind))], Success(())))
  {
    hide Slots.Valid, WithIndex;
    var ixs := s.colls[name].data.indexes;
    assert key in Kinds(ixs) <==> key in ixs;
    assert key in ixs ==> Kinds(ixs)[key] == ixs[key].kind;
  }

  // ----- collections and their names ----------------------------------------

  /** At most 255 bytes, no separators, no white space at either end. */
  ghost predicate NameAllowed(name: string) {
    && 0 < |name| && ByteLength(name) <= 255
    && (forall i :: 0 <= i < |name| ==> name[i] != '/' && name[i] != '\\' && name[i] != '\0')
    && !IsWhitespace(name[0]) && !IsWhitespace(name[|name| - 1])
  }

  ghost predicate CreationAllowed(env: Env, s: State, name: string, config: Config) {
    && NameAllowed(name) && 1 <= config.dimension <= 65536 && name !in s.colls
    && (config.provider.Some? ==> env.available(config.provider.value, config.dimension))
  }

  /** Graph parameters in their bounds; dot products have no graph. */
  ghost predicate GraphAllowed(config: Config) {
    config.metric == DotProduct || (4 <= config.m <= 64 && 8 <= config.efConstruction <= 2048)
  }

  /** The journaled creation: the collection, then its indexes in their order. */
  ghost predicate LogsCreation(
    logged: seq<Entry>, id: nat, name: string, config: Config, declared: seq<(string, IndexKind)>)
  {
    && |logged| == 1 + |declared| && logged[0] == Entry(id, CreateColl(name, [], config))
    && forall i :: 0 <= i < |declared| ==> logged[1 + i] == Entry(id, DeclareKey(declared[i].0, declared[i].1))
  }

  lemma {:induction false} DeclarationsAre(id: nat, declared: seq<(string, IndexKind)>)
    ensures var logged := Declarations(id, declared);
      && |logged| == |declared|
      && forall i :: 0 <= i < |declared| ==> logged[i] == Entry(id, DeclareKey(declared[i].0, declared[i].1))
  {
    if declared != [] {
      DeclarationsAre(id, declared[..|declared| - 1]);
    }
  }

  lemma NameAllowedIff(name: string)
    ensures ValidName(name) <==> NameAllowed(name)
  {
  }

  /** A creation succeeds exactly when it is allowed and the graph parameters are in
      bounds. Then the collection is there, empty, without aliases, under an id that no
      other has, and nothing else changed. Where only the graph parameters are wrong it
      is journaled all the same. */
  lemma CreateDoes(env: Env, s: State, name: string, config: Config, declared: seq<(string, IndexKind)>)
    requires Wf(s)
    ensures var o := Step(env, s, Create(name, config, declared));
      && (o.answer.Success? <==> CreationAllowed(env, s, name, config) && GraphAllowed(config))
      && (!CreationAllowed(env, s, name, config) ==> Untouched(s, o))
      && (CreationAllowed(env, s, name, config) ==>
            LogsCreation(o.logged, s.nextId, name, config, declared) && o.state.nextId == s.nextId + 1)
      && o.state.aliases == s.aliases && (o.answer.Failure? ==> o.state.colls == s.colls)
      && (o.answer.Success? ==>
            && name in o.state.colls && o.state.colls - {name} == s.colls
            && var c := o.state.colls[name];
              && c.id == s.nextId && !Registered(s, c.id) && c.name == name && c.aliases == [] && c.config == config
              && PointsOf(c) == [] && KindsOf(c).Keys == set i | 0 <= i < |declared| :: declared[i].0)
  {
    hide Slots.Valid;
    NameAllowedIff(name);
    CreationIs(env, s, name, config, declared);
    LogIs(s.nextId, name, config, declared);
    NewCollShows(name, [], config, s.nextId, declared);
    DeclaredKeys(declared);
    FreshId(s);
    var c := NewColl(name, [], config, s.nextId, declared);
    assert KindsOf(c) == Shown(c).kinds && PointsOf(c) == Shown(c).points;
    assert c.id == s.nextId && c.aliases == [] && c.config == config;
    assert name !in s.colls ==> s.colls[name := c] - {name} == s.colls;
    hide *;
  }

  lemma LogIs(id: nat, name: string, config: Config, declared: seq<(string, IndexKind)>)
    ensures LogsCreation([Entry(id, CreateColl(name, [], config))] + Declarations(id, declared), id, name, config,
                         declared)
  {
    DeclarationsAre(id, declared);
  }

  lemma CreationIs(env: Env, s: State, name: string, config: Config, declared: seq<(string, IndexKind)>)
    ensures var o := Step(env, s, Create(name, config, declared));
      var logged, next := [Entry(s.nextId, CreateColl(name, [], config))] + Declarations(s.nextId, declared),
        s.(nextId := s.nextId + 1);
      && (!CreationAllowed(env, s, name, config) ==> o.answer.Failure? && Untouched(s, o))
      && (CreationAllowed(env, s, name, config) ==> o.logged == logged)
      && (CreationAllowed(env, s, name, config) && !GraphAllowed(config) ==>
            o.answer.Failure? && o.state == next)
      && (CreationAllowed(env, s, name, config) && GraphAllowed(config) ==>
            && o.answer.Success?
            && o.state == next.(colls := s.colls[name := NewColl(name, [], config, s.nextId, declared)]))
  {
    NameAllowedIff(name);
    hide NewColl, Declarations, ValidName, NameAllowed;
  }

  lemma FreshId(s: State)
    requires Wf(s)
    ensures !Registered(s, s.nextId)
  {
    forall name ensures !Holder(s, s.nextId, name) {
      assert name in s.colls ==> IdsOf(s.colls)[name] == s.colls[name].id;
    }
  }

  lemma {:induction false} DeclaredKeys(declared: seq<(string, IndexKind)>)
    ensures Kinds(Fresh(declared)).Keys == set i | 0 <= i < |declared| :: declared[i].0
  {
    if declared != [] {
      var front := declared[..|declared| - 1];
      DeclaredKeys(front);
      assert forall i :: 0 <= i < |front| ==> front[i] == declared[i];
      assert (set i | 0 <= i < |declared| :: declared[i].0) ==
        (set i | 0 <= i < |front| :: front[i].0) + {declared[|front|].0};
    }
  }

  /** What a lookup finds among these names, with these aliases. */
  function Found(names: set<string>, aliases: map<string, string>, n: string): Option<string> {
    if n in names then Some(n) else if n in aliases && aliases[n] in names then Some(aliases[n]) else None
  }

  /** Aliases lead to names that are there, and `own` are those that lead to `x`. */
  ghost predicate Lead(names: set<string>, aliases: map<string, string>, own: seq<string>, x: string) {
    && x in names && (forall a :: a in aliases ==> aliases[a] in names)
    && forall a :: a in own <==> a in aliases && aliases[a] == x
  }

  lemma LookupFinds(s: State, n: string)
    ensures Lookup(s, n) == Found(s.colls.Keys, s.aliases, n)
  {
  }

  lemma OkLeads(s: State, x: string)
    requires AliasesOk(s) && x in s.colls
    ensures Lead(s.colls.Keys, s.aliases, s.colls[x].aliases, x)
  {
    var own := OwnOf(s.colls);
    assert own.Keys == s.colls.Keys && own[x] == s.colls[x].aliases;
    assert Agree(s.aliases, own);
    hide Slots.Valid, OwnOf;
  }

  /** No lookup leads to the dropped collection any more, and the others are as before. Its
      name can still be found as an alias of another collection. */
  ghost predicate LosesName(s: State, t: State, name: string) {
    forall n :: Lookup(t, n) ==
      if n == name then if n in s.aliases && s.aliases[n] != n then Some(s.aliases[n]) else None
      else if Lookup(s, n) == Some(name) then None
      else Lookup(s, n)
  }

  lemma DroppedLookups(s: State, t: State, name: string)
    requires name in s.colls && Lead(s.colls.Keys, s.aliases, s.colls[name].aliases, name)
    requires t.colls.Keys == s.colls.Keys - {name} && t.aliases == s.aliases - Elems(s.colls[name].aliases)
    ensures LosesName(s, t, name)
  {
    var own := s.colls[name].aliases;
    forall n
      ensures Lookup(s, n) == Found(s.colls.Keys, s.aliases, n)
      ensures Lookup(t, n) == Found(t.colls.Keys, t.aliases, n)
    {
      LookupFinds(s, n);
      LookupFinds(t, n);
    }
    hide Lookup, Slots.Valid;
  }

  /** A drop succeeds exactly when the name is there. Then the collection is gone; all
      others are as before. */
  lemma DropDoes(env: Env, s: State, name: string)
    ensures var o := Step(env, s, Drop(name));
      && (o.answer.Success? <==> name in s.colls)
      && (o.answer.Failure? ==> Untouched(s, o) && o.answer.error == CollectionNotFound)
      && (o.answer.Success? ==>
            && o.logged == [Entry(s.colls[name].id, DropColl)]
            && o.state.colls == s.colls - {name} && o.state.nextId == s.nextId
            && (AliasesOk(s) ==> LosesName(s, o.state, name)))
  {
    if name in s.colls && AliasesOk(s) {
      var t := Step(env, s, Drop(name)).state;
      OkLeads(s, name);
      assert t.colls == s.colls - {name};
      assert t.colls.Keys == s.colls.Keys - {name} && t.aliases == s.aliases - Elems(s.colls[name].aliases);
      DroppedLookups(s, t, name);
      hide Slots.Valid, AliasesOk, LosesName, Lead;
    }
  }

  /** Every lookup that led to the old name leads to the new one, and the others are as
      before. */
  ghost predicate MovesName(s: State, t: State, from: string, to: string) {
    && Lookup(t, to) == Some(to)
    && forall n :: n != from && n != to ==>
      Lookup(t, n) == if Lookup(s, n) == Some(from) then Some(to) else Lookup(s, n)
  }

  lemma RenamedLookup(
    names: set<string>, aliases: map<string, string>, own: seq<string>, x: string, y: string, n: string)
    requires Lead(names, aliases, own, x) && y !in names
    ensures var now := Found(names - {x} + {y}, Pointed(aliases, own, y), n);
      && (n == y ==> now == Some(y))
      && (n != x && n != y ==> now == if Found(names, aliases, n) == Some(x) then Some(y) else Found(names, aliases, n))
  {
  }

  lemma RenamedLookups(s: State, t: State, from: string, to: string)
    requires from in s.colls && Lead(s.colls.Keys, s.aliases, s.colls[from].aliases, from) && to !in s.colls
    requires t.colls.Keys == s.colls.Keys - {from} + {to} && t.aliases == Pointed(s.aliases, s.colls[from].aliases, to)
    ensures MovesName(s, t, from, to)
  {
    hide Lookup, Slots.Valid, Pointed, Lead, Found;
    forall n ensures (n == to ==> Lookup(t, n) == Some(to))
      && (n != from && n != to ==> Lookup(t, n) == if Lookup(s, n) == Some(from) then Some(to) else Lookup(s, n))
    {
      LookupFinds(s, n);
      LookupFinds(t, n);
      RenamedLookup(s.colls.Keys, s.aliases, s.colls[from].aliases, from, to, n);
    }
  }

  /** A rename succeeds exactly when the new name is allowed and free and the old one is
      there. Then the collection has its id, aliases and data under the new name. */
  lemma RenameDoes(env: Env, s: State, from: string, to: string)
    ensures var o := Step(env, s, RenameTo(from, to));
      && (o.answer.Success? <==> NameAllowed(to) && to !in s.colls && from in s.colls)
      && (o.answer.Failure? ==> Untouched(s, o))
      && (o.answer.Success? ==>
            && o.logged == [Entry(s.colls[from].id, Rename(to))] && o.state.nextId == s.nextId
            && o.state.colls == (s.colls - {from})[to := s.colls[from].(name := to)]
            && (AliasesOk(s) ==> MovesName(s, o.state, from, to)))
  {
    NameAllowedIff(to);
    hide ValidName, NameAllowed;
    if from in s.colls && to !in s.colls && ValidName(to) && AliasesOk(s) {
      var t := Step(env, s, RenameTo(from, to)).state;
      OkLeads(s, from);
      assert t.colls == (s.colls - {from})[to := s.colls[from].(name := to)];
      assert t.colls.Keys == s.colls.Keys - {from} + {to} && t.aliases == Pointed(s.aliases, s.colls[from].aliases, to);
      RenamedLookups(s, t, from, to);
      hide Slots.Valid, AliasesOk, MovesName, Lead, Pointed;
    }
  }

  // ----- aliases ------------------------------------------------------------

  /** Setting an alias succeeds exactly when it is allowed and free and the target is
      there. Then a lookup of it finds the target, whose list has it last, and every
      other lookup is as before. */
  lemma AliasDoes(env: Env, s: State, alias: string, target: string)
    requires Wf(s)
    ensures var o := Step(env, s, CreateAlias(alias, target));
      && (o.answer.Success? <==>
            NameAllowed(alias) && alias !in s.colls && alias !in s.aliases && target in s.colls)
      && (o.answer.Failure? ==> Untouched(s, o))
      && (o.answer.Success? ==>
            && o.logged == [Entry(s.colls[target].id, SetAlias(true, alias))] && o.state.nextId == s.nextId
            && Lookup(o.state, alias) == Some(target)
            && (forall n :: n != alias ==> Lookup(o.state, n) == Lookup(s, n))
            && o.state.colls ==
                 s.colls[target := s.colls[target].(aliases := s.colls[target].aliases + [alias])])
  {
    hide Slots.Valid;
    NameAllowedIff(alias);
    hide ValidName, NameAllowed;
  }

  /** A lookup of the alias finds a collection of that name, or nothing; all others are as
      before. */
  ghost predicate LosesAlias(s: State, t: State, alias: string) {
    && Lookup(t, alias) == (if alias in s.colls then Some(alias) else None)
    && forall n :: n != alias ==> Lookup(t, n) == Lookup(s, n)
  }

  lemma UnaliasedLookups(s: State, t: State, alias: string)
    requires t.aliases == s.aliases - {alias} && t.colls.Keys == s.colls.Keys
    ensures LosesAlias(s, t, alias)
  {
    forall n
      ensures Lookup(s, n) == Found(s.colls.Keys, s.aliases, n)
      ensures Lookup(t, n) == Found(t.colls.Keys, t.aliases, n)
    {
      LookupFinds(s, n);
      LookupFinds(t, n);
    }
    hide Lookup, Slots.Valid;
  }

  /** One collection's list has lost the alias; nothing else of it or the others changed. */
  ghost predicate Unlisted(s: State, t: State, target: string, alias: string)
    requires target in s.colls
  {
    && t.colls.Keys == s.colls.Keys && t.nextId == s.nextId
    && (forall n :: n in s.colls && n != target ==> t.colls[n] == s.colls[n])
    && t.colls[target].(aliases := []) == s.colls[target].(aliases := [])
    && forall a :: a in t.colls[target].aliases <==> a in s.colls[target].aliases && a != alias
  }

  lemma ListLoses(s: State, t: State, target: string, alias: string)
    requires target in s.colls && t.nextId == s.nextId
    requires t.colls == s.colls[target := s.colls[target].(aliases := Retained(s.colls[target].aliases, alias))]
    ensures Unlisted(s, t, target, alias) && t.colls.Keys == s.colls.Keys
  {
    hide Slots.Valid;
  }

  /** Deleting an alias succeeds exactly when it is set; one that leads nowhere is just
      forgotten. */
  lemma UnaliasDoes(env: Env, s: State, alias: string)
    ensures var o := Step(env, s, DeleteAlias(alias));
      && (o.answer.Success? <==> alias in s.aliases)
      && (o.answer.Failure? ==> Untouched(s, o) && o.answer.error == CollectionNotFound)
      && (o.answer.Success? ==>
            var target := s.aliases[alias];
            && LosesAlias(s, o.state, alias)
            && (target in s.colls ==>
                  && o.logged == [Entry(s.colls[target].id, SetAlias(false, alias))]
                  && Unlisted(s, o.state, target, alias))
            && (target !in s.colls ==> o.logged == [] && o.state.colls == s.colls && o.state.nextId == s.nextId))
  {
    if alias in s.aliases {
      var o, target := Step(env, s, DeleteAlias(alias)), s.aliases[alias];
      assert target in s.colls ==> o.logged == [Entry(s.colls[target].id, SetAlias(false, alias))];
      assert o.answer.Success? && o.state.aliases == s.aliases - {alias} && o.state.nextId == s.nextId;
      hide *;
      if target in s.colls {
        ListLoses(s, o.state, target, alias);
      }
      UnaliasedLookups(s, o.state, alias);
    }
  }

  // ----- acknowledged writes survive ----------------------------------------

  ghost predicate HoldsBatch(s: State, id: nat, batch: seq<Point>) {
    exists name :: Holder(s, id, name) && forall pid :: LastIsStored(s.colls[name], batch, pid)
  }

  ghost predicate LastIsStored(c: Coll, batch: seq<Point>, pid: string) {
    var given := Slots.LastWith(batch, pid);
    given.Some? ==> pid in ById(c) && StoredAs(c.config, given.value, ById(c)[pid])
  }

  lemma KeptIsStored(c: Coll, e: Coll, batch: seq<Point>, pid: string)
    requires e.config == c.config && Keeps(c.config, PointsOf(c), batch, PointsOf(e))
    ensures LastIsStored(e, batch, pid)
  {
    assert KeepsAt(c.config, Slots.AsMap(PointsOf(c)), Slots.LastWith(batch, pid), Slots.AsMap(PointsOf(e)), pid);
  }

  /** After an upsert that succeeded memory has the batch. */
  lemma UpsertHolds(env: Env, s: State, id: nat, batch: seq<Point>, reserved: bool)
    requires Wf(s) && SqrtLaw(env.sqrt) && Step(env, s, Upsert(id, batch, reserved)).answer.Success?
    ensures HoldsBatch(Step(env, s, Upsert(id, batch, reserved)).state, id, batch)
  {
    var o := Step(env, s, Upsert(id, batch, reserved));
    if !Registered(s, id) {
      NowhereDoes(env, s, id, batch, reserved, "", Keyword);
    }
    var name :| Holder(s, id, name);
    UpsertDoes(env, s, id, batch, reserved, name);
    assert Holder(o.state, id, name);
    hide Step, Wf, SqrtLaw, Holder, Slots.Valid, Keeps;
    forall pid ensures LastIsStored(o.state.colls[name], batch, pid) {
      KeptIsStored(s.colls[name], o.state.colls[name], batch, pid);
    }
  }

  lemma SameViewsHold(s: State, t: State, id: nat, batch: seq<Point>)
    requires ViewsOf(s.colls) == ViewsOf(t.colls) && HoldsBatch(s, id, batch)
    ensures HoldsBatch(t, id, batch)
  {
    hide Slots.Valid;
    var name :| Holder(s, id, name) && forall pid :: LastIsStored(s.colls[name], batch, pid);
    assert ViewsOf(s.colls)[name] == Shown(s.colls[name]);
    assert name in ViewsOf(t.colls) && ViewsOf(t.colls)[name] == Shown(t.colls[name]);
    assert Holder(t, id, name) && t.colls[name].config == s.colls[name].config;
    assert ById(t.colls[name]) == ById(s.colls[name]);
    hide ById, StoredAs;
    forall pid ensures LastIsStored(t.colls[name], batch, pid) {
      assert LastIsStored(s.colls[name], batch, pid);
    }
  }

  /** Wherever in a run an upsert succeeds on a file that can be read to its end: after a
      crash right then the file still has the last version of each id of the batch. */
  lemma UpsertSurvives(
    env: Env, run: seq<Sys>, i: nat, id: nat, batch: seq<Point>, reserved: bool, base: State)
    requires SqrtLaw(env.sqrt) && IsRun(true, env, run) && i + 1 < |run|
    requires Operates(true, env, run[i], run[i + 1], Upsert(id, batch, reserved))
    requires Step(env, run[i].mem, Upsert(id, batch, reserved)).answer.Success?
    requires AllBuildable(run[i + 1].disk.journal) && !run[i + 1].disk.torn
    requires DiskOk(env, run[i + 1].disk) ==> base.colls == Loaded(env, run[i + 1].disk)
    ensures DiskOk(env, run[i + 1].disk)
    ensures var r := ReplayedAll(env, base, run[i + 1].disk.journal); r.Success? && HoldsBatch(r.value, id, batch)
  {
    var t := run[i + 1].mem;
    assert t == Step(env, run[i].mem, Upsert(id, batch, reserved)).state;
    hide *;
    ReachableWf(true, env, run, i);
    UpsertHolds(env, run[i].mem, id, batch, reserved);
    NothingIsLost(true, env, run, i + 1, base);
    ReopenedViews(ReplayedAll(env, base, run[i + 1].disk.journal).value, t);
    SameViewsHold(t, ReplayedAll(env, base, run[i + 1].disk.journal).value, id, batch);
  }

  lemma ReachableWf(exact: bool, env: Env, run: seq<Sys>, i: nat)
    requires SqrtLaw(env.sqrt) && IsRun(exact, env, run) && i < |run|
    ensures Wf(run[i].mem)
  {
    ReachableInv(exact, env, run, i);
  }

  lemma ReopenedViews(r: State, t: State)
    requires Reopened(true, r, t)
    ensures ViewsOf(r.colls) == ViewsOf(t.colls)
  {
    AlikeIs(ViewsOf(r.colls), ViewsOf(t.colls));
  }
}
