/** The collection registry (crates/veclite/src/database.rs): names, aliases and
    collection ids, and every mutation as a step that appends to the journal
    before it changes memory. */
module Registry {
  import opened Core
  import opened Collections
  import opened PayloadIndex
  import opened Slots
  import opened Words

  const MAX_COLLECTION_NAME_BYTES := 255
  const MAX_DIMENSION := 65536
  const M_MIN := 4
  const M_MAX := 64
  const EF_CONSTRUCTION_MIN := 8
  const EF_CONSTRUCTION_MAX := 2048

  /** What the registry asks of its surroundings: the square root of the cosine
      norm, and whether an embedding provider can be built for a dimension. */
  datatype Env = Env(sqrt: real -> real, available: (string, nat) -> bool)

  datatype CollState = CollState(name: string, aliases: seq<string>, config: Config, id: nat, data: Data)

  /** A collection whose slot store satisfies its representation invariant. */
  type Coll = c: CollState | Valid(c.data, c.config.dimension) ghost witness EMPTY_COLL

  const EMPTY_COLL := CollState("", [], Config(0, DotProduct, 0, 0, 0, None), 0, EmptyData(DotProduct, map[]))

  datatype State = State(colls: map<string, Coll>, aliases: map<string, string>, nextId: nat)

  const EMPTY_STATE := State(map[], map[], 1)

  datatype Body =
    | CreateColl(name: string, aliases: seq<string>, config: Config)
    | DropColl
    | Rename(newName: string)
    | UpsertPoints(points: seq<Point>)
    | DeleteIds(ids: seq<string>)
    | SetAlias(create: bool, alias: string)
    | DeclareKey(key: string, kind: IndexKind)

  datatype Entry = Entry(collId: nat, body: Body)

  /** One call of the public API. `reserved` marks the internal text path. */
  datatype Op =
    | Create(name: string, config: Config, declared: seq<(string, IndexKind)>)
    | CreateAlias(alias: string, target: string)
    | DeleteAlias(alias: string)
    | Drop(name: string)
    | RenameTo(from: string, to: string)
    | Upsert(id: nat, batch: seq<Point>, reserved: bool)
    | Delete(id: nat, ids: seq<string>)
    | CreateIndex(id: nat, key: string, kind: IndexKind)

  /** The new state, what was appended to the journal on the way, and the answer. */
  datatype Outcome = Outcome(state: State, logged: seq<Entry>, answer: Result<(), Error>)

  // ----- names and ids ------------------------------------------------------

  predicate ValidName(name: string) {
    && name != "" && ByteLength(name) <= MAX_COLLECTION_NAME_BYTES
    && '/' !in name && '\\' !in name && '\0' !in name
    && !IsWhitespace(name[0]) && !IsWhitespace(name[|name| - 1])
  }

  function Each<C, V>(m: map<string, C>, f: C -> V): map<string, V> {
    map name | name in m :: f(m[name])
  }

  lemma EachUpdate<C, V>(m: map<string, C>, f: C -> V, name: string, c: C)
    ensures Each(m[name := c], f) == Each(m, f)[name := f(c)]
    ensures Each(m - {name}, f) == Each(m, f) - {name}
  {
  }

  function IdOf(c: Coll): nat {
    c.id
  }

  function OwnName(c: Coll): string {
    c.name
  }

  function IdsOf(colls: map<string, Coll>): map<string, nat> {
    Each(colls, IdOf)
  }

  /** The name registered under a collection id. */
  ghost function NameOf(ids: map<string, nat>, id: nat): (r: Option<string>)
    ensures r.Some? ==> r.value in ids && ids[r.value] == id
    ensures r.None? ==> forall name :: name in ids ==> ids[name] != id
  {
    if exists name :: name in ids && ids[name] == id then
      var name :| name in ids && ids[name] == id;
      Some(name)
    else None
  }

  ghost predicate DistinctIdsIn(ids: map<string, nat>) {
    forall m, n :: m in ids && n in ids && ids[m] == ids[n] ==> m == n
  }

  lemma NameIs(ids: map<string, nat>, name: string)
    requires DistinctIdsIn(ids) && name in ids
    ensures NameOf(ids, ids[name]) == Some(name)
  {
  }

  lemma DistinctUpdate(ids: map<string, nat>, name: string, id: nat)
    requires DistinctIdsIn(ids) && forall n :: n in ids && n != name ==> ids[n] != id
    ensures DistinctIdsIn(ids[name := id])
  {
  }

  lemma DistinctRemove(ids: map<string, nat>, name: string)
    requires DistinctIdsIn(ids)
    ensures DistinctIdsIn(ids - {name})
  {
  }

  ghost predicate SelfNamed(names: map<string, string>) {
    forall name :: name in names ==> names[name] == name
  }

  /** Names match their keys and no two collections share an id. */
  ghost predicate Keyed(colls: map<string, Coll>) {
    SelfNamed(Each(colls, OwnName)) && DistinctIdsIn(IdsOf(colls))
  }

  ghost predicate Below(ids: map<string, nat>, limit: nat) {
    forall name :: name in ids ==> ids[name] < limit
  }

  ghost predicate Wf(s: State) {
    Keyed(s.colls) && Below(IdsOf(s.colls), s.nextId)
  }

  // ----- steps --------------------------------------------------------------

  predicate Buildable(config: Config) {
    config.metric == DotProduct
    || (M_MIN <= config.m <= M_MAX && EF_CONSTRUCTION_MIN <= config.efConstruction <= EF_CONSTRUCTION_MAX)
  }

  function NewColl(
    name: string, aliases: seq<string>, config: Config, id: nat, declared: seq<(string, IndexKind)>): Coll
  {
    FreshIsEmpty(declared);
    EmptyValid(config.metric, Fresh(declared), config.dimension);
    CollState(name, aliases, config, id, EmptyData(config.metric, Fresh(declared)))
  }

  function Declarations(id: nat, declared: seq<(string, IndexKind)>): seq<Entry> {
    if declared == [] then []
    else
      var (key, kind) := declared[|declared| - 1];
      Declarations(id, declared[..|declared| - 1]) + [Entry(id, DeclareKey(key, kind))]
  }

  function CreateError(env: Env, s: State, name: string, config: Config): Option<Error> {
    if !ValidName(name) then Some(InvalidArgument)
    else if config.dimension == 0 || config.dimension > MAX_DIMENSION then Some(InvalidArgument)
    else if config.provider.Some? && !env.available(config.provider.value, config.dimension)
      then Some(UnsupportedProvider)
    else if name in s.colls then Some(AlreadyExists)
    else None
  }

  /** The graph parameters are checked only after the creation was journaled. */
  function Created(env: Env, s: State, name: string, config: Config, declared: seq<(string, IndexKind)>): Outcome {
    var error := CreateError(env, s, name, config);
    if error.Some? then Outcome(s, [], Failure(error.value))
    else
      var logged := [Entry(s.nextId, CreateColl(name, [], config))] + Declarations(s.nextId, declared);
      var next := s.(nextId := s.nextId + 1);
      if !Buildable(config) then Outcome(next, logged, Failure(InvalidArgument))
      else Outcome(next.(colls := s.colls[name := NewColl(name, [], config, s.nextId, declared)]), logged, Success(()))
  }

  function Aliased(s: State, alias: string, target: string): Outcome {
    if !ValidName(alias) then Outcome(s, [], Failure(InvalidArgument))
    else if alias in s.colls || alias in s.aliases then Outcome(s, [], Failure(AlreadyExists))
    else if target !in s.colls then Outcome(s, [], Failure(CollectionNotFound))
    else
      var c := s.colls[target];
      Outcome(s.(aliases := s.aliases[alias := target], colls := s.colls[target := c.(aliases := c.aliases + [alias])]),
              [Entry(c.id, SetAlias(true, alias))], Success(()))
  }

  /** `retain(|a| a != alias)` */
  function Retained(aliases: seq<string>, alias: string): (r: seq<string>)
    ensures forall a :: a in r <==> a in aliases && a != alias
  {
    if aliases == [] then []
    else
      var last := aliases[|aliases| - 1];
      Retained(aliases[..|aliases| - 1], alias) + if last == alias then [] else [last]
  }

  function Unaliased(s: State, alias: string): Outcome {
    if alias !in s.aliases then Outcome(s, [], Failure(CollectionNotFound))
    else
      var target, rest := s.aliases[alias], s.aliases - {alias};
      if target !in s.colls then Outcome(s.(aliases := rest), [], Success(()))
      else
        var c := s.colls[target];
        Outcome(s.(aliases := rest, colls := s.colls[target := c.(aliases := Retained(c.aliases, alias))]),
                [Entry(c.id, SetAlias(false, alias))], Success(()))
  }

  function Dropped(s: State, name: string): Outcome {
    if name !in s.colls then Outcome(s, [], Failure(CollectionNotFound))
    else
      var c := s.colls[name];
      Outcome(s.(colls := s.colls - {name}, aliases := s.aliases - Elems(c.aliases)), [Entry(c.id, DropColl)],
        Success(()))
  }

  /** Every alias in `own` now resolves to `name`. */
  function Pointed(aliases: map<string, string>, own: seq<string>, name: string): map<string, string> {
    aliases + map a | a in own :: name
  }

  function Renamed(s: State, from: string, to: string): Outcome {
    if !ValidName(to) then Outcome(s, [], Failure(InvalidArgument))
    else if to in s.colls then Outcome(s, [], Failure(AlreadyExists))
    else if from !in s.colls then Outcome(s, [], Failure(CollectionNotFound))
    else
      var c := s.colls[from];
      Outcome(s.(colls := (s.colls - {from})[to := c.(name := to)], aliases := Pointed(s.aliases, c.aliases, to)),
              [Entry(c.id, Rename(to))], Success(()))
  }

  lemma PreparedWidths(env: Env, config: Config, batch: seq<Point>, reserved: bool)
    requires PrepareAll(config, env.sqrt, batch, reserved).Success?
    ensures forall i :: 0 <= i < |batch| ==>
      |PrepareAll(config, env.sqrt, batch, reserved).value[i].vector| == config.dimension
  {
    var prepared := PrepareAll(config, env.sqrt, batch, reserved).value;
    forall i | 0 <= i < |batch| ensures |prepared[i].vector| == config.dimension {
      assert Prepare(config, env.sqrt, batch[i], reserved) == Success(prepared[i]);
    }
  }

  function WithPoints(env: Env, c: Coll, batch: seq<Point>, reserved: bool): Coll
    requires PrepareAll(c.config, env.sqrt, batch, reserved).Success?
  {
    PreparedWidths(env, c.config, batch, reserved);
    c.(data := UpsertedAll(c.data, PrepareAll(c.config, env.sqrt, batch, reserved).value, c.config.dimension))
  }

  function WithoutIds(c: Coll, ids: seq<string>): Coll {
    c.(data := DeletedAll(c.data, ids, c.config.dimension))
  }

  function WithIndex(c: Coll, key: string, kind: IndexKind): Coll {
    DeclareRefines(c.data, key, kind, c.config.dimension);
    c.(data := IndexDeclared(c.data, key, kind))
  }

  ghost function PointsUpserted(env: Env, s: State, id: nat, batch: seq<Point>, reserved: bool): Outcome {
    var at := NameOf(IdsOf(s.colls), id);
    if at.None? then Outcome(s, [], Failure(CollectionNotFound))
    else
      var c := s.colls[at.value];
      var prepared := PrepareAll(c.config, env.sqrt, batch, reserved);
      if prepared.Failure? then Outcome(s, [], Failure(prepared.error))
      else Outcome(s.(colls := s.colls[at.value := WithPoints(env, c, batch, reserved)]),
        [Entry(id, UpsertPoints(batch))], Success(()))
  }

  ghost function PointsDeleted(s: State, id: nat, ids: seq<string>): Outcome {
    var at := NameOf(IdsOf(s.colls), id);
    if at.None? then Outcome(s, [], Failure(CollectionNotFound))
    else Outcome(s.(colls := s.colls[at.value := WithoutIds(s.colls[at.value], ids)]), [Entry(id, DeleteIds(ids))],
      Success(()))
  }

  ghost function IndexCreated(s: State, id: nat, key: string, kind: IndexKind): Outcome {
    var at := NameOf(IdsOf(s.colls), id);
    if at.None? then Outcome(s, [], Failure(CollectionNotFound))
    else
      var c := s.colls[at.value];
      var answer := CreateIndexResult(c.data.indexes, key, kind);
      if answer.Failure? || key in c.data.indexes then Outcome(s, [], answer)
      else Outcome(s.(colls := s.colls[at.value := WithIndex(c, key, kind)]), [Entry(id, DeclareKey(key, kind))],
        Success(()))
  }

  ghost function Step(env: Env, s: State, op: Op): Outcome {
    match op
    case Create(name, config, declared) => Created(env, s, name, config, declared)
    case CreateAlias(alias, target) => Aliased(s, alias, target)
    case DeleteAlias(alias) => Unaliased(s, alias)
    case Drop(name) => Dropped(s, name)
    case RenameTo(from, to) => Renamed(s, from, to)
    case Upsert(id, batch, reserved) => PointsUpserted(env, s, id, batch, reserved)
    case Delete(id, ids) => PointsDeleted(s, id, ids)
    case CreateIndex(id, key, kind) => IndexCreated(s, id, key, kind)
  }
}
