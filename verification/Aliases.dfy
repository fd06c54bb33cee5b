/** Alias resolution (crates/veclite/src/database.rs). While a database runs, an
    alias resolves to a collection exactly when the collection lists it. Replay
    keeps the names that collections had when their aliases were set, so it gets
    this right for some journals only. */
module Aliases {
  import opened Core
  import opened Collections
  import opened Crashes
  import opened Linear
  import opened Recovery
  import opened Registry
  import Slots

  // ----- the invariant ------------------------------------------------------

  /** The alias lists of the collections, by collection name. */
  type Own = map<string, seq<string>>

  function OwnAliases(c: Coll): seq<string> {
    c.aliases
  }

  function OwnOf(colls: map<string, Coll>): Own {
    Each<Coll, seq<string>>(colls, OwnAliases)
  }

  /** An alias resolves to a name exactly when that collection is there and lists it. */
  ghost predicate Agree(aliases: map<string, string>, own: Own) {
    && (forall a :: a in aliases ==> aliases[a] in own && a in own[aliases[a]])
    && (forall t, a :: t in own && a in own[t] ==> a in aliases && aliases[a] == t)
  }

  ghost predicate AliasesOk(s: State) {
    Agree(s.aliases, OwnOf(s.colls))
  }

  /** What `collection(name)` finds: the name of a collection first, then an alias. */
  function Lookup(s: State, name: string): Option<string> {
    if name in s.colls then Some(name)
    else if name in s.aliases && s.aliases[name] in s.colls then Some(s.aliases[name])
    else None
  }

  /** A lookup finds a collection by its name, or by an alias that it lists and
      that no collection has for a name. */
  lemma LookupIff(s: State, name: string, t: string)
    requires AliasesOk(s)
    ensures Lookup(s, name) == Some(t) <==>
      t in s.colls && (name == t || (name !in s.colls && name in s.colls[t].aliases))
  {
    assert t in s.colls ==> OwnOf(s.colls)[t] == s.colls[t].aliases;
  }

  /** The lists determine the map. */
  lemma AgreeOnce(a: map<string, string>, b: map<string, string>, own: Own)
    requires Agree(a, own) && Agree(b, own)
    ensures a == b
  {
    forall x ensures (x in a <==> x in b) && (x in a ==> a[x] == b[x]) {
    }
  }

  lemma AgreeGrant(aliases: map<string, string>, own: Own, alias: string, t: string)
    requires Agree(aliases, own) && alias !in aliases && t in own
    ensures Agree(aliases[alias := t], own[t := own[t] + [alias]])
  {
  }

  lemma AgreeRevoke(aliases: map<string, string>, own: Own, alias: string)
    requires Agree(aliases, own) && alias in aliases
    ensures aliases[alias] in own
    ensures Agree(aliases - {alias}, own[aliases[alias] := Retained(own[aliases[alias]], alias)])
  {
  }

  lemma AgreeDrop(aliases: map<string, string>, own: Own, t: string)
    requires Agree(aliases, own) && t in own
    ensures Agree(aliases - Elems(own[t]), own - {t})
  {
    forall u, a | u in own - {t} && a in own[u] ensures a in aliases - Elems(own[t]) && aliases[a] == u {
      assert a in aliases && aliases[a] == u;
      assert a !in own[t];
    }
  }

  lemma AgreeRename(aliases: map<string, string>, own: Own, from: string, to: string)
    requires Agree(aliases, own) && from in own && to !in own
    ensures Agree(Pointed(aliases, own[from], to), (own - {from})[to := own[from]])
  {
    var pointed, moved := Pointed(aliases, own[from], to), (own - {from})[to := own[from]];
    forall a | a in pointed ensures pointed[a] in moved && a in moved[pointed[a]] {
      if a !in own[from] {
        assert aliases[a] != from;
      }
    }
  }

  lemma AgreeNew(aliases: map<string, string>, own: Own, name: string)
    requires Agree(aliases, own) && name !in own
    ensures Agree(aliases, own[name := []])
  {
  }

  /** A collection replaced by one with the same alias list. */
  lemma OwnStays(colls: map<string, Coll>, name: string, c: Coll)
    requires name in colls && c.aliases == colls[name].aliases
    ensures OwnOf(colls[name := c]) == OwnOf(colls)
  {
    EachUpdate<Coll, seq<string>>(colls, OwnAliases, name, c);
  }

  lemma CreateKeepsAliases(env: Env, s: State, name: string, config: Config, declared: seq<(string, IndexKind)>)
    requires AliasesOk(s)
    ensures AliasesOk(Created(env, s, name, config, declared).state)
  {
    if Created(env, s, name, config, declared).answer.Success? {
      var c := NewColl(name, [], config, s.nextId, declared);
      EachUpdate<Coll, seq<string>>(s.colls, OwnAliases, name, c);
      AgreeNew(s.aliases, OwnOf(s.colls), name);
    }
  }

  lemma NamesKeepAliases(env: Env, s: State, op: Op)
    requires AliasesOk(s) && (op.Drop? || op.RenameTo?)
    ensures AliasesOk(Step(env, s, op).state)
  {
    var own := OwnOf(s.colls);
    match op
    case Drop(name) =>
      if name in s.colls {
        EachUpdate<Coll, seq<string>>(s.colls, OwnAliases, name, s.colls[name]);
        AgreeDrop(s.aliases, own, name);
      }
    case RenameTo(from, to) =>
      if Renamed(s, from, to).answer.Success? {
        var c := s.colls[from];
        EachUpdate<Coll, seq<string>>(s.colls, OwnAliases, from, c);
        EachUpdate<Coll, seq<string>>(s.colls - {from}, OwnAliases, to, c.(name := to));
        AgreeRename(s.aliases, own, from, to);
      }
  }

  lemma AliasesKeepAliases(env: Env, s: State, op: Op)
    requires AliasesOk(s) && (op.CreateAlias? || op.DeleteAlias?)
    ensures AliasesOk(Step(env, s, op).state)
  {
    var own := OwnOf(s.colls);
    match op
    case CreateAlias(alias, target) =>
      if Aliased(s, alias, target).answer.Success? {
        var c := s.colls[target];
        EachUpdate<Coll, seq<string>>(s.colls, OwnAliases, target, c.(aliases := c.aliases + [alias]));
        AgreeGrant(s.aliases, own, alias, target);
      }
    case DeleteAlias(alias) =>
      if alias in s.aliases {
        AgreeRevoke(s.aliases, own, alias);
        var c := s.colls[s.aliases[alias]];
        EachUpdate<Coll, seq<string>>(s.colls, OwnAliases, s.aliases[alias], c.(aliases := Retained(c.aliases, alias)));
      }
  }

  lemma DataKeepsAliases(env: Env, s: State, op: Op)
    requires AliasesOk(s) && (op.Upsert? || op.Delete? || op.CreateIndex?)
    ensures AliasesOk(Step(env, s, op).state)
  {
    hide Slots.Valid;
    var at := NameOf(IdsOf(s.colls), op.id);
    if at.Some? {
      var c := s.colls[at.value];
      match op
      case Upsert(_, batch, reserved) =>
        if PrepareAll(c.config, env.sqrt, batch, reserved).Success? {
          OwnStays(s.colls, at.value, WithPoints(env, c, batch, reserved));
        }
      case Delete(_, ids) => OwnStays(s.colls, at.value, WithoutIds(c, ids));
      case CreateIndex(_, key, kind) => OwnStays(s.colls, at.value, WithIndex(c, key, kind));
    }
  }

  /** Whatever the operation and whether it succeeds, aliases resolve to the
      collections that list them. */
  lemma StepKeepsAliases(env: Env, s: State, op: Op)
    requires AliasesOk(s)
    ensures AliasesOk(Step(env, s, op).state)
  {
    match op
    case Create(name, config, declared) => CreateKeepsAliases(env, s, name, config, declared);
    case Drop(_) => NamesKeepAliases(env, s, op);
    case RenameTo(_, _) => NamesKeepAliases(env, s, op);
    case CreateAlias(_, _) => AliasesKeepAliases(env, s, op);
    case DeleteAlias(_) => AliasesKeepAliases(env, s, op);
    case _ => DataKeepsAliases(env, s, op);
  }

  lemma {:induction false} RunKeepsAliases(env: Env, s: State, ops: seq<Op>)
    requires AliasesOk(s)
    ensures AliasesOk(Ran(env, s, ops).state)
  {
    if ops != [] {
      RunKeepsAliases(env, s, ops[..|ops| - 1]);
      StepKeepsAliases(env, Ran(env, s, ops[..|ops| - 1]).state, ops[|ops| - 1]);
    }
  }

  // ----- names over a journal -----------------------------------------------

  type Names = map<nat, string>

  /** The registry's key for a name moves to `id`. */
  function Taken(names: Names, id: nat, name: string): Names {
    (map d | d in names && names[d] != name :: names[d])[id := name]
  }

  function NamesStepped(names: Names, e: Entry): Names {
    match e.body
    case CreateColl(name, _, _) => if e.collId in names then names else Taken(names, e.collId, name)
    case Rename(newName) => if e.collId in names then Taken(names, e.collId, newName) else names
    case DropColl => names - {e.collId}
    case _ => names
  }

  function NamesAfter(names: Names, es: seq<Entry>): Names {
    if es == [] then names else NamesStepped(NamesAfter(names, es[..|es| - 1]), es[|es| - 1])
  }

  /** The names by id and the ids by name say the same. */
  ghost predicate Inverse(ids: map<string, nat>, names: Names) {
    && (forall n :: n in ids ==> ids[n] in names && names[ids[n]] == n)
    && (forall d :: d in names ==> names[d] in ids && ids[names[d]] == d)
  }

  ghost function NamesOf(ids: map<string, nat>): Names {
    map d | d in ids.Values :: NameOf(ids, d).value
  }

  lemma NamesOfInverse(ids: map<string, nat>)
    requires DistinctIdsIn(ids)
    ensures Inverse(ids, NamesOf(ids))
  {
    forall n | n in ids ensures ids[n] in ids.Values && NamesOf(ids)[ids[n]] == n {
      NameIs(ids, n);
    }
  }

  lemma NameInverse(ids: map<string, nat>, names: Names, id: nat)
    requires Inverse(ids, names)
    ensures NameOf(ids, id) == if id in names then Some(names[id]) else None
    ensures DistinctIdsIn(ids)
  {
  }

  lemma InverseTakes(ids: map<string, nat>, names: Names, id: nat, name: string)
    requires Inverse(ids, names)
    ensures id !in names ==> Inverse(ids[name := id], Taken(names, id, name))
    ensures id in names ==> Inverse((ids - {names[id]})[name := id], Taken(names, id, name))
  {
  }

  lemma InverseDrops(ids: map<string, nat>, names: Names, id: nat)
    requires Inverse(ids, names) && id in names
    ensures Inverse(ids - {names[id]}, names - {id})
  {
  }

  // ----- grants -------------------------------------------------------------

  /** Who was given an alias, and the name it had then. */
  datatype Grant = Grant(id: nat, name: string)

  type Grants = map<string, Grant>

  function GrantsStepped(g: Grants, names: Names, e: Entry): Grants {
    if !e.body.SetAlias? || e.collId !in names then g
    else if e.body.create then g[e.body.alias := Grant(e.collId, names[e.collId])]
    else g - {e.body.alias}
  }

  function GrantsAfter(g: Grants, names: Names, es: seq<Entry>): Grants {
    if es == [] then g
    else
      var front := es[..|es| - 1];
      GrantsStepped(GrantsAfter(g, names, front), NamesAfter(names, front), es[|es| - 1])
  }

  function NamedBy(g: Grants): map<string, string> {
    map a | a in g :: g[a].name
  }

  /** The grants that a consistent registry amounts to. */
  function Owners(s: State): Grants
    requires forall a :: a in s.aliases ==> s.aliases[a] in s.colls
  {
    map a | a in s.aliases :: Grant(s.colls[s.aliases[a]].id, s.aliases[a])
  }

  /** No alias list comes with a creation. */
  ghost predicate Plain(es: seq<Entry>) {
    forall i :: 0 <= i < |es| && es[i].body.CreateColl? ==> es[i].body.aliases == []
  }

  lemma CreationReplayed(env: Env, s: State, names: Names, e: Entry)
    requires Inverse(IdsOf(s.colls), names) && Replayed(env, s, e).Success?
    requires e.body.CreateColl? && e.body.aliases == []
    ensures var r := Replayed(env, s, e).value;
      Inverse(IdsOf(r.colls), NamesStepped(names, e)) && r.aliases == s.aliases
  {
    NameInverse(IdsOf(s.colls), names, e.collId);
    if e.collId !in names {
      var c := CreatedNew(env, s, e);
      EachUpdate<Coll, nat>(s.colls, IdOf, e.body.name, c);
      InverseTakes(IdsOf(s.colls), names, e.collId, e.body.name);
    }
  }

  lemma CreatedNew(env: Env, s: State, e: Entry) returns (c: Coll)
    requires NameOf(IdsOf(s.colls), e.collId).None? && Replayed(env, s, e).Success?
    requires e.body.CreateColl? && e.body.aliases == []
    ensures c.id == e.collId && Replayed(env, s, e).value == s.(colls := s.colls[e.body.name := c])
  {
    c := NewColl(e.body.name, [], e.body.config, e.collId, []);
    hide NewColl;
    assert Pointed(s.aliases, [], e.body.name) == s.aliases;
  }

  lemma MoveReplayed(env: Env, s: State, names: Names, e: Entry)
    requires Inverse(IdsOf(s.colls), names) && Replayed(env, s, e).Success?
    requires e.collId in names && (e.body.DropColl? || e.body.Rename?)
    ensures var r := Replayed(env, s, e).value;
      Inverse(IdsOf(r.colls), NamesStepped(names, e)) && r.aliases == s.aliases
  {
    var name := names[e.collId];
    NameInverse(IdsOf(s.colls), names, e.collId);
    var c := s.colls[name];
    EachUpdate<Coll, nat>(s.colls, IdOf, name, c);
    if e.body.DropColl? {
      InverseDrops(IdsOf(s.colls), names, e.collId);
    } else {
      InverseTakes(IdsOf(s.colls), names, e.collId, e.body.newName);
      EachUpdate<Coll, nat>(s.colls - {name}, IdOf, e.body.newName, c.(name := e.body.newName));
    }
  }

  lemma ChangeReplayed(env: Env, s: State, names: Names, e: Entry)
    requires Inverse(IdsOf(s.colls), names) && Replayed(env, s, e).Success?
    requires Changes(e.body) && e.collId in names
    ensures var r := Replayed(env, s, e).value;
      Inverse(IdsOf(r.colls), NamesStepped(names, e)) && r.aliases == ReplayedAlias(s.aliases, e.body, names[e.collId])
  {
    var name := names[e.collId];
    NameInverse(IdsOf(s.colls), names, e.collId);
    var after := ChangedInPlace(env, s, e, name);
    SameIdThere(s.colls, name, after);
    assert NamesStepped(names, e) == names;
  }

  lemma ChangedInPlace(env: Env, s: State, e: Entry, name: string) returns (after: Coll)
    requires NameOf(IdsOf(s.colls), e.collId) == Some(name) && Replayed(env, s, e).Success? && Changes(e.body)
    ensures name in s.colls && after.id == s.colls[name].id
    ensures Replayed(env, s, e).value ==
      s.(colls := s.colls[name := after], aliases := ReplayedAlias(s.aliases, e.body, name))
  {
    CollKeepsIdentity(env, s.colls[name], e.body);
    hide ReplayedColl;
    after := ReplayedColl(env, s.colls[name], e.body).value;
  }

  lemma SameIdThere(colls: map<string, Coll>, name: string, c: Coll)
    requires name in colls && c.id == colls[name].id
    ensures IdsOf(colls[name := c]) == IdsOf(colls)
  {
    EachUpdate<Coll, nat>(colls, IdOf, name, c);
  }

  lemma GrantsFollow(names: Names, g: Grants, e: Entry)
    ensures e.collId in names ==>
      ReplayedAlias(NamedBy(g), e.body, names[e.collId]) == NamedBy(GrantsStepped(g, names, e))
    ensures !Changes(e.body) || e.collId !in names ==> GrantsStepped(g, names, e) == g
  {
  }

  /** One entry replayed, seen through the ids and the alias map alone. */
  lemma ReplayedAliases(env: Env, s: State, names: Names, g: Grants, e: Entry)
    requires Inverse(IdsOf(s.colls), names) && s.aliases == NamedBy(g) && Replayed(env, s, e).Success?
    requires e.body.CreateColl? ==> e.body.aliases == []
    ensures var r := Replayed(env, s, e).value;
      Inverse(IdsOf(r.colls), NamesStepped(names, e)) && r.aliases == NamedBy(GrantsStepped(g, names, e))
  {
    GrantsFollow(names, g, e);
    if e.body.CreateColl? {
      CreationReplayed(env, s, names, e);
    } else if e.collId !in names {
      NameInverse(IdsOf(s.colls), names, e.collId);
    } else if Changes(e.body) {
      ChangeReplayed(env, s, names, e);
    } else {
      MoveReplayed(env, s, names, e);
    }
  }

  /** Whatever the journal, replay resolves an alias to the name its collection had
      when the alias was set. */
  lemma {:induction false} ReplayKeepsGrants(env: Env, s: State, names: Names, g: Grants, es: seq<Entry>)
    requires Inverse(IdsOf(s.colls), names) && s.aliases == NamedBy(g) && Plain(es)
    ensures var r := ReplayedAll(env, s, es);
      r.Success? ==>
        && Inverse(IdsOf(r.value.colls), NamesAfter(names, es))
        && r.value.aliases == NamedBy(GrantsAfter(g, names, es))
  {
    if es != [] && ReplayedAll(env, s, es).Success? {
      var front := es[..|es| - 1];
      ReplayKeepsGrants(env, s, names, g, front);
      ReplayedAliases(env, ReplayedAll(env, s, front).value, NamesAfter(names, front), GrantsAfter(g, names, front),
                      es[|es| - 1]);
    }
  }

  // ----- the journal of a consistent registry -------------------------------

  /** The grants are the alias lists, with dropped collections left in. */
  ghost predicate Granted(v: Views, g: Grants) {
    forall n, a :: n in v ==> (a in v[n].aliases <==> a in g && g[a].id == v[n].id)
  }

  /** What the live path checks before it journals: an alias is set when nobody
      has it, and deleted for its owner; a new id has no grants. */
  ghost predicate Rightful(v: Views, g: Grants, e: Entry) {
    match e.body
    case CreateColl(_, _, _) => forall a :: a in g ==> g[a].id != e.collId
    case SetAlias(create, alias) =>
      if create then forall n :: n in v ==> alias !in v[n].aliases
      else exists n :: n in v && v[n].id == e.collId && alias in v[n].aliases
    case _ => true
  }

  ghost predicate Proper(env: Env, v: Views, g: Grants, names: Names, es: seq<Entry>) {
    es == [] ||
    var front, e := es[..|es| - 1], es[|es| - 1];
    && Proper(env, v, g, names, front)
    && AppliedAll(env, v, front).Some? && Admissible(env, AppliedAll(env, v, front).value, e)
    && Rightful(AppliedAll(env, v, front).value, GrantsAfter(g, names, front), e)
  }

  lemma PlainSnoc(es: seq<Entry>, e: Entry)
    requires Plain(es) && (e.body.CreateColl? ==> e.body.aliases == [])
    ensures Plain(es + [e])
  {
  }

  lemma ProperLast(env: Env, v: Views, g: Grants, names: Names, es: seq<Entry>)
    requires Proper(env, v, g, names, es) && es != []
    ensures Proper(env, v, g, names, es[..|es| - 1])
    ensures es[|es| - 1].body.CreateColl? ==> es[|es| - 1].body.aliases == []
  {
  }

  lemma {:induction false} ProperIsPlain(env: Env, v: Views, g: Grants, names: Names, es: seq<Entry>)
    requires Proper(env, v, g, names, es)
    ensures Plain(es)
  {
    hide Proper, AppliedAll, Admissible, Rightful;
    if es != [] {
      var front, e := es[..|es| - 1], es[|es| - 1];
      ProperLast(env, v, g, names, es);
      hide Plain;
      ProperIsPlain(env, v, g, names, front);
      assert es == front + [e];
      PlainSnoc(front, e);
    }
  }

  lemma ProperApplies(env: Env, v: Views, g: Grants, names: Names, es: seq<Entry>)
    requires Proper(env, v, g, names, es)
    ensures AppliedAll(env, v, es).Some? && Plain(es)
  {
    ProperIsPlain(env, v, g, names, es);
  }

  /** The names follow the views. */
  lemma AppliedNames(env: Env, v: Views, names: Names, e: Entry)
    requires Inverse(ViewIds(v), names) && Admissible(env, v, e)
    ensures Inverse(ViewIds(Applied(env, v, e)), NamesStepped(names, e))
  {
    var ids := ViewIds(v);
    NameInverse(ids, names, e.collId);
    var at := NameOf(ids, e.collId);
    if e.body.CreateColl? {
      EachUpdate(v, ViewId, e.body.name, NewView(e.body, e.collId));
      InverseTakes(ids, names, e.collId, e.body.name);
    } else {
      EachUpdate(v, ViewId, at.value, v[at.value]);
      if e.body.DropColl? {
        InverseDrops(ids, names, e.collId);
      } else if e.body.Rename? {
        InverseTakes(ids, names, e.collId, e.body.newName);
        EachUpdate(v - {at.value}, ViewId, e.body.newName, v[at.value]);
      } else {
        EachUpdate(v, ViewId, at.value, Changed(env, v[at.value], e.body));
      }
    }
  }

  lemma GrantedPut(v: Views, g: Grants, name: string, w: View)
    requires Granted(v, g) && forall a :: a in w.aliases <==> a in g && g[a].id == w.id
    ensures Granted(v[name := w], g)
  {
  }

  lemma GrantedMoves(v: Views, g: Grants, from: string, to: string)
    requires Granted(v, g) && from in v
    ensures Granted(v - {from}, g) && Granted((v - {from})[to := v[from]], g)
  {
  }

  /** An alias nobody lists goes to one collection. */
  lemma GrantedGives(v: Views, g: Grants, n: string, alias: string, w: View, name: string)
    requires Granted(v, g) && DistinctIdsIn(ViewIds(v)) && n in v && forall m :: m in v ==> alias !in v[m].aliases
    requires w.id == v[n].id && w.aliases == v[n].aliases + [alias]
    ensures Granted(v[n := w], g[alias := Grant(v[n].id, name)])
  {
    var after, h := v[n := w], g[alias := Grant(v[n].id, name)];
    forall m, a | m in after ensures a in after[m].aliases <==> a in h && h[a].id == after[m].id {
      assert m in v && ViewIds(v)[m] == v[m].id && ViewIds(v)[n] == v[n].id;
      assert a in v[m].aliases <==> a in g && g[a].id == v[m].id;
      assert a in w.aliases <==> a in v[n].aliases || a == alias;
    }
  }

  lemma GrantedTakes(v: Views, g: Grants, n: string, alias: string, w: View)
    requires Granted(v, g) && DistinctIdsIn(ViewIds(v)) && n in v && alias in v[n].aliases
    requires w.id == v[n].id && w.aliases == Retained(v[n].aliases, alias)
    ensures Granted(v[n := w], g - {alias})
  {
    var after, h := v[n := w], g - {alias};
    assert g[alias].id == v[n].id;
    forall m, a | m in after ensures a in after[m].aliases <==> a in h && h[a].id == after[m].id {
      assert m in v && ViewIds(v)[m] == v[m].id && ViewIds(v)[n] == v[n].id;
      assert m != n ==> (a in v[m].aliases <==> a in g && g[a].id == v[m].id);
    }
  }

  lemma GrantedStep(env: Env, v: Views, g: Grants, names: Names, e: Entry)
    requires Granted(v, g) && Inverse(ViewIds(v), names) && Admissible(env, v, e) && Rightful(v, g, e)
    ensures Granted(Applied(env, v, e), GrantsStepped(g, names, e))
  {
    NameInverse(ViewIds(v), names, e.collId);
    var at := NameOf(ViewIds(v), e.collId);
    match e.body
    case CreateColl(name, _, _) => GrantedPut(v, g, name, NewView(e.body, e.collId));
    case DropColl => GrantedMoves(v, g, at.value, at.value);
    case Rename(newName) => GrantedMoves(v, g, at.value, newName);
    case SetAlias(create, alias) =>
      var w := Changed(env, v[at.value], e.body);
      if create {
        GrantedGives(v, g, at.value, alias, w, at.value);
      } else {
        var n :| n in v && v[n].id == e.collId && alias in v[n].aliases;
        assert ViewIds(v)[n] == e.collId && n == at.value;
        GrantedTakes(v, g, n, alias, w);
      }
    case _ => GrantedPut(v, g, at.value, Changed(env, v[at.value], e.body));
  }

  lemma {:induction false} GrantedAfter(env: Env, v: Views, g: Grants, names: Names, es: seq<Entry>)
    requires Granted(v, g) && Inverse(ViewIds(v), names) && Proper(env, v, g, names, es)
    ensures AppliedAll(env, v, es).Some?
    ensures var w := AppliedAll(env, v, es).value;
      Granted(w, GrantsAfter(g, names, es)) && Inverse(ViewIds(w), NamesAfter(names, es))
  {
    if es != [] {
      var front, e := es[..|es| - 1], es[|es| - 1];
      GrantedAfter(env, v, g, names, front);
      var w := AppliedAll(env, v, front).value;
      GrantedStep(env, w, GrantsAfter(g, names, front), NamesAfter(names, front), e);
      AppliedNames(env, w, NamesAfter(names, front), e);
    }
  }

  // ----- when replay resolves aliases right ---------------------------------

  /** Every collection that was given an alias is there under the name it had. */
  ghost predicate NamesHold(g: Grants, names: Names) {
    forall a :: a in g ==> g[a].id in names && names[g[a].id] == g[a].name
  }

  function ViewAliases(w: View): seq<string> {
    w.aliases
  }

  lemma AgreeIff(v: Views, g: Grants, names: Names)
    requires Granted(v, g) && Inverse(ViewIds(v), names)
    ensures Agree(NamedBy(g), Each(v, ViewAliases)) <==> NamesHold(g, names)
  {
    var own, m := Each(v, ViewAliases), NamedBy(g);
    if NamesHold(g, names) {
      forall a | a in m ensures m[a] in own && a in own[m[a]] {
        assert ViewIds(v)[m[a]] == g[a].id;
      }
      forall t, a | t in own && a in own[t] ensures a in m && m[a] == t {
        assert a in v[t].aliases && ViewIds(v)[t] == v[t].id;
      }
    }
    if Agree(m, own) {
      forall a | a in g ensures g[a].id in names && names[g[a].id] == g[a].name {
        assert a in m && a in v[m[a]].aliases && ViewIds(v)[m[a]] == v[m[a]].id;
      }
    }
  }

  lemma OwnIsShown(colls: map<string, Coll>)
    ensures OwnOf(colls) == Each(ViewsOf(colls), ViewAliases)
  {
  }

  /** Replaying a journal that the live path can have written over a consistent
      registry leaves it consistent exactly when every alias in force was given to
      a collection that is there under the name it had. */
  lemma ReplayAgreesIff(env: Env, base: State, g: Grants, names: Names, es: seq<Entry>)
    requires Keyed(base.colls) && Inverse(IdsOf(base.colls), names) && base.aliases == NamedBy(g)
    requires Granted(ViewsOf(base.colls), g) && Proper(env, ViewsOf(base.colls), g, names, es)
    ensures var r := ReplayedAll(env, base, es);
      && r.Success? && r.value.aliases == NamedBy(GrantsAfter(g, names, es))
      && (AliasesOk(r.value) <==> NamesHold(GrantsAfter(g, names, es), NamesAfter(names, es)))
  {
    var v := ViewsOf(base.colls);
    SameIds(base.colls);
    ProperApplies(env, v, g, names, es);
    ReplayRefines(env, base, es);
    ReplayKeepsGrants(env, base, names, g, es);
    GrantedAfter(env, v, g, names, es);
    var r := ReplayedAll(env, base, es).value;
    OwnIsShown(r.colls);
    AgreeIff(ViewsOf(r.colls), GrantsAfter(g, names, es), NamesAfter(names, es));
  }

  lemma OwnerIs(s: State, n: string, a: string)
    requires AliasesOk(s) && Keyed(s.colls) && n in s.colls
    ensures a in s.colls[n].aliases <==> a in Owners(s) && Owners(s)[a].id == s.colls[n].id
    ensures a in s.colls[n].aliases ==> Owners(s)[a] == Grant(s.colls[n].id, n)
  {
    hide Slots.Valid;
    var ids := IdsOf(s.colls);
    assert OwnOf(s.colls)[n] == s.colls[n].aliases && ids[n] == s.colls[n].id;
    if a in Owners(s) && Owners(s)[a].id == s.colls[n].id {
      assert ids[s.aliases[a]] == ids[n];
    }
  }

  lemma OwnersGrant(s: State)
    requires AliasesOk(s) && Wf(s)
    ensures Granted(ViewsOf(s.colls), Owners(s)) && s.aliases == NamedBy(Owners(s))
    ensures forall a :: a in Owners(s) ==> Owners(s)[a].id < s.nextId
  {
    OwnersBelow(s);
    GrantedByOwners(s);
  }

  lemma GrantedByOwners(s: State)
    requires AliasesOk(s) && Keyed(s.colls)
    ensures Granted(ViewsOf(s.colls), Owners(s))
  {
    hide Slots.Valid;
    hide Shown;
    forall n, a | n in s.colls
      ensures a in ViewsOf(s.colls)[n].aliases <==> a in Owners(s) && Owners(s)[a].id == ViewsOf(s.colls)[n].id
    {
      OwnerShown(s, n, a);
    }
  }

  lemma OwnersBelow(s: State)
    requires AliasesOk(s) && Wf(s)
    ensures forall a :: a in Owners(s) ==> Owners(s)[a].id < s.nextId
    ensures s.aliases == NamedBy(Owners(s))
  {
    hide Slots.Valid;
    forall a | a in s.aliases ensures s.colls[s.aliases[a]].id < s.nextId {
      assert IdsOf(s.colls)[s.aliases[a]] == s.colls[s.aliases[a]].id;
    }
  }

  lemma OwnerShown(s: State, n: string, a: string)
    requires AliasesOk(s) && Keyed(s.colls) && n in s.colls
    ensures a in ViewsOf(s.colls)[n].aliases <==> a in Owners(s) && Owners(s)[a].id == ViewsOf(s.colls)[n].id
  {
    hide Slots.Valid;
    OwnerIs(s, n, a);
    assert ViewsOf(s.colls)[n] == Shown(s.colls[n]);
  }

  // ----- the journal of a run is proper -------------------------------------

  ghost predicate GrantsBelow(g: Grants, limit: nat) {
    forall a :: a in g ==> g[a].id < limit
  }

  lemma RightfulAlike(exact: bool, v: Views, w: Views, g: Grants, e: Entry)
    requires Alike(exact, v, w) && Rightful(v, g, e)
    ensures Rightful(w, g, e)
  {
    forall n | n in v ensures v[n].id == w[n].id && v[n].aliases == w[n].aliases {
      assert Same(exact, v[n], w[n]);
    }
  }

  lemma {:induction false} ProperAlike(
    exact: bool, env: Env, v: Views, w: Views, g: Grants, names: Names, es: seq<Entry>)
    requires Alike(exact, v, w) && Proper(env, v, g, names, es)
    ensures Proper(env, w, g, names, es)
  {
    if es != [] {
      var front, e := es[..|es| - 1], es[|es| - 1];
      ProperAlike(exact, env, v, w, g, names, front);
      AppliedAllAlike(exact, env, v, w, front);
      var a, b := AppliedAll(env, v, front).value, AppliedAll(env, w, front).value;
      hide Alike, AppliedAll, Rightful, Admissible;
      AppliedAlike(exact, env, a, b, e);
      RightfulAlike(exact, a, b, GrantsAfter(g, names, front), e);
    }
  }

  lemma {:induction false} GrantsJoin(g: Grants, names: Names, a: seq<Entry>, b: seq<Entry>)
    ensures NamesAfter(names, a + b) == NamesAfter(NamesAfter(names, a), b)
    ensures GrantsAfter(g, names, a + b) == GrantsAfter(GrantsAfter(g, names, a), NamesAfter(names, a), b)
  {
    if b == [] {
      assert a + b == a;
    } else {
      GrantsJoin(g, names, a, b[..|b| - 1]);
      assert (a + b)[..|a + b| - 1] == a + b[..|b| - 1];
    }
  }

  lemma {:induction false} ProperJoin(env: Env, v: Views, g: Grants, names: Names, a: seq<Entry>, b: seq<Entry>)
    requires Proper(env, v, g, names, a) && AppliedAll(env, v, a).Some?
    requires Proper(env, AppliedAll(env, v, a).value, GrantsAfter(g, names, a), NamesAfter(names, a), b)
    ensures Proper(env, v, g, names, a + b)
  {
    if b == [] {
      assert a + b == a;
    } else {
      var front := b[..|b| - 1];
      ProperJoin(env, v, g, names, a, front);
      assert (a + b)[..|a + b| - 1] == a + front;
      AppliedJoin(env, v, a, front);
      GrantsJoin(g, names, a, front);
    }
  }

  lemma {:induction false} ProperPrefix(env: Env, v: Views, g: Grants, names: Names, es: seq<Entry>, n: nat)
    requires n <= |es| && Proper(env, v, g, names, es)
    ensures Proper(env, v, g, names, es[..n])
  {
    if n < |es| {
      ProperPrefix(env, v, g, names, es[..|es| - 1], n);
      assert es[..|es| - 1][..n] == es[..n];
    } else {
      assert es[..n] == es;
    }
  }

  /** Entries that set no alias, and whose new ids have no grants. */
  lemma {:induction false} QuietIsProper(env: Env, v: Views, g: Grants, names: Names, es: seq<Entry>)
    requires AppliedAll(env, v, es).Some? && forall i :: 0 <= i < |es| ==> !es[i].body.SetAlias?
    requires forall i, a :: 0 <= i < |es| && es[i].body.CreateColl? && a in g ==> g[a].id != es[i].collId
    ensures Proper(env, v, g, names, es) && GrantsAfter(g, names, es) == g
  {
    if es != [] {
      var e := es[|es| - 1];
      QuietIsProper(env, v, g, names, es[..|es| - 1]);
      assert !e.body.SetAlias?;
    }
  }

  lemma OneIsProper(env: Env, v: Views, g: Grants, names: Names, e: Entry)
    requires AppliedAll(env, v, [e]).Some? && Rightful(v, g, e)
    ensures Proper(env, v, g, names, [e]) && GrantsAfter(g, names, [e]) == GrantsStepped(g, names, e)
  {
    assert [e][..0] == [] && AppliedAll(env, v, [e][..0]) == Some(v);
    assert Proper(env, v, g, names, [e][..0]) && NamesAfter(names, [e][..0]) == names;
    assert GrantsAfter(g, names, [e][..0]) == g;
  }

  /** What a step that sets or deletes an alias checked. */
  lemma AliasRightful(env: Env, s: State, g: Grants, op: Op)
    requires AliasesOk(s) && (op.CreateAlias? || op.DeleteAlias?) && Step(env, s, op).logged != []
    ensures var logged := Step(env, s, op).logged;
      |logged| == 1 && logged[0].body.SetAlias? && Rightful(ViewsOf(s.colls), g, logged[0])
  {
    hide Slots.Valid;
    var v := ViewsOf(s.colls);
    forall n | n in v ensures OwnOf(s.colls)[n] == v[n].aliases && v[n].id == s.colls[n].id {
    }
    if op.DeleteAlias? {
      assert s.aliases[op.alias] in v && op.alias in v[s.aliases[op.alias]].aliases;
    }
  }

  lemma CreateProper(env: Env, s: State, g: Grants, names: Names, op: Op)
    requires op.Create? && AppliedAll(env, ViewsOf(s.colls), Step(env, s, op).logged).Some? && GrantsBelow(g, s.nextId)
    ensures Proper(env, ViewsOf(s.colls), g, names, Step(env, s, op).logged)
  {
    var logged := Step(env, s, op).logged;
    LoggedSize(env, s, op);
    DeclarationsAbout(s.nextId, op.declared);
    assert forall a :: a in g ==> g[a].id != s.nextId;
    hide *;
    if logged != [] {
      forall i | 0 <= i < |logged| ensures !logged[i].body.SetAlias? && logged[i].collId == s.nextId {
        assert i > 0 ==> logged[i] == Declarations(s.nextId, op.declared)[i - 1];
      }
    }
    QuietIsProper(env, ViewsOf(s.colls), g, names, logged);
  }

  lemma OtherRightful(env: Env, s: State, g: Grants, op: Op)
    requires AliasesOk(s) && !op.Create? && Step(env, s, op).logged != []
    ensures |Step(env, s, op).logged| == 1 && Rightful(ViewsOf(s.colls), g, Step(env, s, op).logged[0])
  {
    hide Slots.Valid;
    LoggedAbout(env, s, op);
    if op.CreateAlias? || op.DeleteAlias? {
      AliasRightful(env, s, g, op);
    }
  }

  lemma OtherProper(env: Env, s: State, g: Grants, names: Names, op: Op)
    requires AliasesOk(s) && !op.Create? && AppliedAll(env, ViewsOf(s.colls), Step(env, s, op).logged).Some?
    ensures Proper(env, ViewsOf(s.colls), g, names, Step(env, s, op).logged)
  {
    hide Step, AppliedAll, AliasesOk, Slots.Valid;
    var logged := Step(env, s, op).logged;
    if logged != [] {
      hide *;
      OtherRightful(env, s, g, op);
      assert logged == [logged[0]];
      OneIsProper(env, ViewsOf(s.colls), g, names, logged[0]);
    }
  }

  lemma StepProper(env: Env, s: State, g: Grants, names: Names, op: Op)
    requires Wf(s) && AliasesOk(s) && SqrtLaw(env.sqrt) && !Unbuildable(env, s, op) && GrantsBelow(g, s.nextId)
    ensures Proper(env, ViewsOf(s.colls), g, names, Step(env, s, op).logged)
  {
    StepRefines(false, env, s, op);
    assert AppliedAll(env, ViewsOf(s.colls), Step(env, s, op).logged).Some?;
    hide *;
    if op.Create? {
      CreateProper(env, s, g, names, op);
    } else {
      OtherProper(env, s, g, names, op);
    }
  }

  /** The ids of grants are ids that were given out. */
  lemma {:induction false} GrantsStayBelow(g: Grants, names: Names, es: seq<Entry>, limit: nat)
    requires GrantsBelow(g, limit) && AllBelow(es, limit)
    ensures GrantsBelow(GrantsAfter(g, names, es), limit)
  {
    if es != [] {
      GrantsStayBelow(g, names, es[..|es| - 1], limit);
    }
  }

  /** One more step, seen from the views that the journal so far leads to. */
  lemma StepStaysProper(env: Env, v: Views, g: Grants, names: Names, es: seq<Entry>, s: State, op: Op)
    requires Wf(s) && AliasesOk(s) && SqrtLaw(env.sqrt) && !Unbuildable(env, s, op)
    requires Proper(env, v, g, names, es) && AppliedAll(env, v, es).Some?
    requires Alike(false, AppliedAll(env, v, es).value, ViewsOf(s.colls))
    requires GrantsBelow(GrantsAfter(g, names, es), s.nextId)
    ensures Proper(env, v, g, names, es + Step(env, s, op).logged)
  {
    var w, h, now := AppliedAll(env, v, es).value, GrantsAfter(g, names, es), NamesAfter(names, es);
    StepProper(env, s, h, now, op);
    AlikeTurns(false, w, ViewsOf(s.colls));
    ProperAlike(false, env, ViewsOf(s.colls), w, h, now, Step(env, s, op).logged);
    ProperJoin(env, v, g, names, es, Step(env, s, op).logged);
  }

  // ----- renames and drops after an alias was set ---------------------------

  predicate Says(e: Entry, alias: string) {
    e.body.SetAlias? && e.body.alias == alias
  }

  /** Entry `i` sets an alias, and it is the last word on it. */
  ghost predicate InForce(es: seq<Entry>, i: nat)
    requires i < |es|
  {
    && es[i].body.SetAlias? && es[i].body.create
    && forall k :: i < k < |es| ==> !Says(es[k], es[i].body.alias)
  }

  ghost predicate Unsaid(es: seq<Entry>, alias: string) {
    forall k :: 0 <= k < |es| ==> !Says(es[k], alias)
  }

  ghost predicate DroppedFrom(es: seq<Entry>, from: nat, id: nat) {
    exists k :: from <= k < |es| && es[k].collId == id && es[k].body.DropColl?
  }

  /** The last name that entries from `from` on give to a collection, or else `name`. */
  function LastName(es: seq<Entry>, from: nat, id: nat, name: string): string {
    if |es| <= from then name
    else
      var e := es[|es| - 1];
      if e.collId == id && e.body.Rename? then e.body.newName else LastName(es[..|es| - 1], from, id, name)
  }

  /** From entry `from` on a collection is not dropped, and ends with the name it had. */
  ghost predicate Undisturbed(es: seq<Entry>, from: nat, id: nat, name: string) {
    !DroppedFrom(es, from, id) && LastName(es, from, id, name) == name
  }

  /** No collection was renamed or dropped after an alias in force was set for it. */
  ghost predicate KeepsNames(g: Grants, names: Names, es: seq<Entry>) {
    && (forall i :: 0 <= i < |es| && InForce(es, i) ==>
          && es[i].collId in NamesAfter(names, es[..i])
          && Undisturbed(es, i + 1, es[i].collId, NamesAfter(names, es[..i])[es[i].collId]))
    && (forall a :: a in g && Unsaid(es, a) ==> Undisturbed(es, 0, g[a].id, g[a].name))
  }

  lemma AliasRegistered(env: Env, v: Views, names: Names, e: Entry)
    requires Inverse(ViewIds(v), names) && Admissible(env, v, e) && e.body.SetAlias?
    ensures e.collId in names
  {
    NameInverse(ViewIds(v), names, e.collId);
  }

  /** An entry about an alias is about a registered collection. */
  lemma {:induction false} SaidByRegistered(env: Env, v: Views, g: Grants, names: Names, es: seq<Entry>, k: nat)
    requires Inverse(ViewIds(v), names) && Proper(env, v, g, names, es) && Granted(v, g)
    requires k < |es| && es[k].body.SetAlias?
    ensures es[k].collId in NamesAfter(names, es[..k])
  {
    hide Rightful, Applied, ViewIds, Inverse, NamesAfter, GrantsAfter, Granted;
    var front := es[..|es| - 1];
    if k == |front| {
      GrantedAfter(env, v, g, names, front);
      AliasRegistered(env, AppliedAll(env, v, front).value, NamesAfter(names, front), es[k]);
    } else {
      assert front[k] == es[k] && front[..k] == es[..k];
      SaidByRegistered(env, v, g, names, front, k);
    }
  }

  /** An alias in force is granted to the collection of its last entry. */
  lemma {:induction false} ForceGrants(env: Env, v: Views, g: Grants, names: Names, es: seq<Entry>, i: nat)
    requires Inverse(ViewIds(v), names) && Proper(env, v, g, names, es) && Granted(v, g)
    requires i < |es| && InForce(es, i)
    ensures es[i].collId in NamesAfter(names, es[..i]) && es[i].body.alias in GrantsAfter(g, names, es)
    ensures GrantsAfter(g, names, es)[es[i].body.alias] == Grant(es[i].collId, NamesAfter(names, es[..i])[es[i].collId])
  {
    var front := es[..|es| - 1];
    SaidByRegistered(env, v, g, names, es, i);
    hide AppliedAll, Admissible, Rightful, Inverse, Granted, NamesAfter, ViewIds;
    if i < |front| {
      assert front[i] == es[i] && front[..i] == es[..i];
      forall k | i < k < |front| ensures !Says(front[k], es[i].body.alias) {
        assert front[k] == es[k];
      }
      ForceGrants(env, v, g, names, front, i);
      assert !Says(es[|front|], es[i].body.alias);
      hide Proper, InForce;
      GrantStays(g, names, es, es[i].body.alias);
    } else {
      assert es[..i] == front;
      hide Proper, InForce;
    }
  }

  lemma GrantStays(g: Grants, names: Names, es: seq<Entry>, a: string)
    requires es != [] && a in GrantsAfter(g, names, es[..|es| - 1]) && !Says(es[|es| - 1], a)
    ensures a in GrantsAfter(g, names, es) && GrantsAfter(g, names, es)[a] == GrantsAfter(g, names, es[..|es| - 1])[a]
  {
    hide NamesAfter;
  }

  lemma {:induction false} UnsaidStays(g: Grants, names: Names, es: seq<Entry>, a: string)
    requires Unsaid(es, a)
    ensures a in GrantsAfter(g, names, es) <==> a in g
    ensures a in g ==> GrantsAfter(g, names, es)[a] == g[a]
  {
    if es != [] {
      UnsaidStays(g, names, es[..|es| - 1], a);
      assert !Says(es[|es| - 1], a);
    }
  }

  /** Every grant comes from the last entry that speaks of its alias. */
  lemma {:induction false} GrantFrom(g: Grants, names: Names, es: seq<Entry>, a: string) returns (i: int)
    requires a in GrantsAfter(g, names, es)
    requires forall k :: 0 <= k < |es| && Says(es[k], a) ==> es[k].collId in NamesAfter(names, es[..k])
    ensures (i == -1 && a in g && Unsaid(es, a)) || (0 <= i < |es| && InForce(es, i) && es[i].body.alias == a)
  {
    hide NamesAfter, NamesStepped, Undisturbed;
    if es == [] {
      i := -1;
    } else {
      var front, e := es[..|es| - 1], es[|es| - 1];
      assert es[..|front|] == front;
      if Says(e, a) {
        i := |front|;
      } else {
        forall k | 0 <= k < |front| && Says(front[k], a) ensures front[k].collId in NamesAfter(names, front[..k]) {
          assert front[..k] == es[..k];
        }
        i := GrantFrom(g, names, front, a);
        assert i >= 0 ==> front[i] == es[i];
      }
    }
  }

  /** What a proper entry does to the name of a collection that holds a grant. */
  lemma NameAfterEntry(env: Env, v: Views, g: Grants, names: Names, e: Entry, id: nat, a: string)
    requires Inverse(ViewIds(v), names) && Admissible(env, v, e) && Rightful(v, g, e) && a in g && g[a].id == id
    ensures var after := NamesStepped(names, e);
      && (e.collId == id && e.body.DropColl? ==> id !in after)
      && (!(e.collId == id && e.body.DropColl?) ==> (id in after <==> id in names))
      && (id in after ==> after[id] == if e.collId == id && e.body.Rename? then e.body.newName else names[id])
  {
    NameInverse(ViewIds(v), names, e.collId);
    if id in names {
      assert names[id] in v && v[names[id]].id == id;
    }
  }

  /** The grant of `a` to `id` is there from entry `from` on. */
  ghost predicate Holds(g: Grants, names: Names, es: seq<Entry>, from: nat, a: string, id: nat) {
    forall n :: from <= n <= |es| ==> a in GrantsAfter(g, names, es[..n]) && GrantsAfter(g, names, es[..n])[a].id == id
  }

  lemma {:induction false} NameAfterIs(
    env: Env, v: Views, g: Grants, names: Names, es: seq<Entry>, from: nat, id: nat, name: string, a: string)
    requires Inverse(ViewIds(v), names) && Granted(v, g) && Proper(env, v, g, names, es) && from <= |es|
    requires id in NamesAfter(names, es[..from]) && NamesAfter(names, es[..from])[id] == name
    requires Holds(g, names, es, from, a, id)
    ensures id in NamesAfter(names, es) <==> !DroppedFrom(es, from, id)
    ensures id in NamesAfter(names, es) ==> NamesAfter(names, es)[id] == LastName(es, from, id, name)
    decreases |es|
  {
    if from == |es| {
      assert es[..from] == es;
    } else {
      var front, e := es[..|es| - 1], es[|es| - 1];
      assert front[..from] == es[..from] && front[..|front|] == front == es[..|front|];
      forall n | from <= n <= |front|
        ensures a in GrantsAfter(g, names, front[..n]) && GrantsAfter(g, names, front[..n])[a].id == id
      {
        assert front[..n] == es[..n];
      }
      NameAfterIs(env, v, g, names, front, from, id, name, a);
      GrantedAfter(env, v, g, names, front);
      NameAfterEntry(env, AppliedAll(env, v, front).value, GrantsAfter(g, names, front), NamesAfter(names, front), e,
        id, a);
      DroppedSnoc(es, from, id);
    }
  }

  lemma DroppedSnoc(es: seq<Entry>, from: nat, id: nat)
    requires from < |es|
    ensures DroppedFrom(es, from, id) <==>
      DroppedFrom(es[..|es| - 1], from, id) || (es[|es| - 1].collId == id && es[|es| - 1].body.DropColl?)
  {
    var front := es[..|es| - 1];
    if k :| from <= k < |es| && es[k].collId == id && es[k].body.DropColl? && k < |front| {
      assert front[k] == es[k];
    }
    if DroppedFrom(front, from, id) {
      var k :| from <= k < |front| && front[k].collId == id && front[k].body.DropColl?;
      assert es[k] == front[k];
    }
  }

  lemma ForceHolds(env: Env, v: Views, g: Grants, names: Names, es: seq<Entry>, i: nat)
    requires Inverse(ViewIds(v), names) && Proper(env, v, g, names, es) && Granted(v, g)
    requires i < |es| && InForce(es, i)
    ensures Holds(g, names, es, i + 1, es[i].body.alias, es[i].collId)
  {
    forall n | i + 1 <= n <= |es|
      ensures es[i].body.alias in GrantsAfter(g, names, es[..n])
      ensures GrantsAfter(g, names, es[..n])[es[i].body.alias].id == es[i].collId
    {
      assert es[..n][i] == es[i];
      ProperPrefix(env, v, g, names, es, n);
      ForceGrants(env, v, g, names, es[..n], i);
    }
  }

  lemma UnsaidHolds(g: Grants, names: Names, es: seq<Entry>, a: string)
    requires Unsaid(es, a) && a in g
    ensures Holds(g, names, es, 0, a, g[a].id)
  {
    forall n | 0 <= n <= |es|
      ensures a in GrantsAfter(g, names, es[..n]) && GrantsAfter(g, names, es[..n])[a].id == g[a].id
    {
      UnsaidStays(g, names, es[..n], a);
    }
  }

  /** A collection keeps the name of a grant unless it is renamed or dropped. */
  lemma ForceKept(env: Env, v: Views, g: Grants, names: Names, es: seq<Entry>, i: nat)
    requires Inverse(ViewIds(v), names) && Proper(env, v, g, names, es) && Granted(v, g)
    requires i < |es| && InForce(es, i)
    ensures es[i].collId in NamesAfter(names, es[..i])
    ensures var a, id, after := es[i].body.alias, es[i].collId, NamesAfter(names, es);
      var name := NamesAfter(names, es[..i])[id];
      && a in GrantsAfter(g, names, es) && GrantsAfter(g, names, es)[a] == Grant(id, name)
      && (id in after && after[id] == name <==> Undisturbed(es, i + 1, id, name))
  {
    hide AppliedAll, Rightful, Admissible, Proper;
    ForceGrants(env, v, g, names, es, i);
    ForceHolds(env, v, g, names, es, i);
    assert es[..i + 1][..i] == es[..i] && es[..i + 1][i] == es[i];
    NameAfterIs(env, v, g, names, es, i + 1, es[i].collId, NamesAfter(names, es[..i])[es[i].collId], es[i].body.alias);
  }

  lemma UnsaidKept(env: Env, v: Views, g: Grants, names: Names, es: seq<Entry>, a: string)
    requires Inverse(ViewIds(v), names) && Proper(env, v, g, names, es) && Granted(v, g)
    requires a in g && Unsaid(es, a) && g[a].id in names && names[g[a].id] == g[a].name
    ensures a in GrantsAfter(g, names, es) && GrantsAfter(g, names, es)[a] == g[a]
    ensures var after := NamesAfter(names, es);
      g[a].id in after && after[g[a].id] == g[a].name <==> Undisturbed(es, 0, g[a].id, g[a].name)
  {
    UnsaidStays(g, names, es, a);
    UnsaidHolds(g, names, es, a);
    assert es[..0] == [];
    NameAfterIs(env, v, g, names, es, 0, g[a].id, g[a].name, a);
  }

  /** The grants hold under their names exactly when no collection was renamed away
      or dropped after an alias in force was set for it. */
  lemma NamesHoldIff(env: Env, v: Views, g: Grants, names: Names, es: seq<Entry>)
    requires Inverse(ViewIds(v), names) && Proper(env, v, g, names, es) && Granted(v, g) && NamesHold(g, names)
    ensures NamesHold(GrantsAfter(g, names, es), NamesAfter(names, es)) <==> KeepsNames(g, names, es)
  {
    var h, after := GrantsAfter(g, names, es), NamesAfter(names, es);
    if NamesHold(h, after) {
      forall i | 0 <= i < |es| && InForce(es, i)
        ensures es[i].collId in NamesAfter(names, es[..i])
        ensures Undisturbed(es, i + 1, es[i].collId, NamesAfter(names, es[..i])[es[i].collId])
      {
        ForceKept(env, v, g, names, es, i);
      }
      forall a | a in g && Unsaid(es, a) ensures Undisturbed(es, 0, g[a].id, g[a].name) {
        UnsaidKept(env, v, g, names, es, a);
      }
    }
    if KeepsNames(g, names, es) {
      forall a | a in h ensures h[a].id in after && after[h[a].id] == h[a].name {
        forall k | 0 <= k < |es| && Says(es[k], a) ensures es[k].collId in NamesAfter(names, es[..k]) {
          SaidByRegistered(env, v, g, names, es, k);
        }
        var i := GrantFrom(g, names, es, a);
        if i >= 0 {
          ForceKept(env, v, g, names, es, i);
        } else {
          UnsaidKept(env, v, g, names, es, a);
        }
      }
    }
  }

  // ----- runs ---------------------------------------------------------------

  /** What a run keeps of the aliases, and that its journal is proper. */
  lemma {:induction false} RunProper(env: Env, s: State, ops: seq<Op>)
    requires Wf(s) && AliasesOk(s) && SqrtLaw(env.sqrt) && AllBuilt(env, s, ops)
    ensures var t, g, names := Ran(env, s, ops), Owners(s), NamesOf(IdsOf(s.colls));
      && Wf(t.state) && AliasesOk(t.state) && s.nextId <= t.state.nextId
      && Proper(env, ViewsOf(s.colls), g, names, t.journal)
      && GrantsBelow(GrantsAfter(g, names, t.journal), t.state.nextId)
  {
    OwnersGrant(s);
    if ops != [] {
      var front, op := ops[..|ops| - 1], ops[|ops| - 1];
      var before := Ran(env, s, front);
      RunProper(env, s, front);
      RunRefines(false, env, s, front);
      StepStaysProper(env, ViewsOf(s.colls), Owners(s), NamesOf(IdsOf(s.colls)), before.journal, before.state, op);
      LoggedIds(env, before.state, op);
      JournalFresh(env, s, ops);
      RunKeepsAliases(env, s, ops);
      hide *;
      GrantsStayBelow(Owners(s), NamesOf(IdsOf(s.colls)), Ran(env, s, ops).journal, Ran(env, s, ops).state.nextId);
    }
  }

  lemma SameAliases(base: State, s: State)
    requires AliasesOk(base) && AliasesOk(s) && Alike(false, ViewsOf(base.colls), ViewsOf(s.colls))
    ensures base.aliases == s.aliases
  {
    hide Slots.Valid;
    var v, w := ViewsOf(base.colls), ViewsOf(s.colls);
    forall n | n in v ensures v[n].aliases == w[n].aliases {
      assert Same(false, v[n], w[n]);
    }
    OwnIsShown(base.colls);
    OwnIsShown(s.colls);
    assert Each(v, ViewAliases) == Each(w, ViewAliases);
    AgreeOnce(base.aliases, s.aliases, OwnOf(s.colls));
  }

  /** Alias recovery: wherever the journal of a run is cut, replaying it over the
      last checkpoint resolves the aliases to the collections that list them if and
      only if no collection was renamed away or dropped after an alias in force was
      set for it. */
  lemma AliasesRecoverIff(env: Env, base: State, s: State, ops: seq<Op>, c: nat)
    requires Wf(s) && AliasesOk(s) && Checkpointed(base, s) && AliasesOk(base)
    requires SqrtLaw(env.sqrt) && AllBuilt(env, s, ops) && c <= |Ran(env, s, ops).journal|
    ensures var es := Ran(env, s, ops).journal[..c];
      var r := ReplayedAll(env, base, es);
      r.Success? && (AliasesOk(r.value) <==> KeepsNames(Owners(s), NamesOf(IdsOf(s.colls)), es))
  {
    var es, g, names := Ran(env, s, ops).journal[..c], Owners(s), NamesOf(IdsOf(s.colls));
    RunProper(env, s, ops);
    ProperPrefix(env, ViewsOf(s.colls), g, names, Ran(env, s, ops).journal, c);
    SavedNames(base, s);
    OwnersNamed(s);
    hide *;
    ReplayAgreesIff(env, base, g, names, es);
    NamesHoldIff(env, ViewsOf(base.colls), g, names, es);
  }

  /** A checkpoint of a consistent registry, seen through names and grants. */
  lemma SavedNames(base: State, s: State)
    requires Wf(s) && AliasesOk(s) && Checkpointed(base, s) && AliasesOk(base)
    ensures Keyed(base.colls) && ViewsOf(base.colls) == ViewsOf(s.colls) && base.aliases == NamedBy(Owners(s))
    ensures Granted(ViewsOf(base.colls), Owners(s))
    ensures Inverse(IdsOf(base.colls), NamesOf(IdsOf(s.colls)))
    ensures Inverse(ViewIds(ViewsOf(base.colls)), NamesOf(IdsOf(s.colls)))
  {
    hide Slots.Valid;
    assert DistinctIdsIn(IdsOf(s.colls)) && Keyed(base.colls) && ViewsOf(base.colls) == ViewsOf(s.colls);
    hide *;
    OwnersGrant(s);
    SameIds(s.colls);
    SameIds(base.colls);
    NamesOfInverse(IdsOf(s.colls));
    AlikeSelf(false, ViewsOf(s.colls));
    SameAliases(base, s);
  }

  lemma OwnersNamed(s: State)
    requires AliasesOk(s) && Wf(s)
    ensures NamesHold(Owners(s), NamesOf(IdsOf(s.colls)))
  {
    hide Slots.Valid;
    var ids, g := IdsOf(s.colls), Owners(s);
    NamesOfInverse(ids);
    forall a | a in g ensures g[a].id in NamesOf(ids) && NamesOf(ids)[g[a].id] == g[a].name {
      assert ids[g[a].name] == g[a].id;
    }
  }

  /** After a whole journal the replayed map is the live one under the same condition. */
  lemma ReplayedMapIff(env: Env, base: State, s: State, ops: seq<Op>)
    requires Wf(s) && AliasesOk(s) && Checkpointed(base, s) && AliasesOk(base)
    requires SqrtLaw(env.sqrt) && AllBuilt(env, s, ops)
    ensures var t := Ran(env, s, ops);
      var r := ReplayedAll(env, base, t.journal);
      && r.Success?
      && (r.value.aliases == t.state.aliases <==> KeepsNames(Owners(s), NamesOf(IdsOf(s.colls)), t.journal))
  {
    var t := Ran(env, s, ops);
    assert t.journal[..|t.journal|] == t.journal;
    AliasesRecoverIff(env, base, s, ops, |t.journal|);
    WholeJournal(false, env, base, s, ops);
    RunKeepsAliases(env, s, ops);
    var r := ReplayedAll(env, base, t.journal).value;
    AlikeOwn(r, t.state);
    if AliasesOk(r) {
      SameAliases(r, t.state);
    }
  }

  lemma AlikeOwn(r: State, s: State)
    requires Alike(false, ViewsOf(r.colls), ViewsOf(s.colls)) && AliasesOk(s)
    ensures r.aliases == s.aliases ==> AliasesOk(r)
  {
    hide Slots.Valid;
    var v, w := ViewsOf(r.colls), ViewsOf(s.colls);
    forall n | n in v ensures v[n].aliases == w[n].aliases {
      assert Same(false, v[n], w[n]);
    }
    OwnIsShown(r.colls);
    OwnIsShown(s.colls);
    assert Each(v, ViewAliases) == Each(w, ViewAliases);
  }

  // ----- aliases lost on replay ---------------------------------------------

  lemma OwnedResolves(s: State, n: string, a: string)
    requires AliasesOk(s) && n in s.colls && a in s.colls[n].aliases
    ensures a in s.aliases && s.aliases[a] == n
  {
    hide Slots.Valid;
    assert OwnOf(s.colls)[n] == s.colls[n].aliases;
  }

  lemma SavedThere(base: State, s: State, n: string)
    requires Wf(s) && AliasesOk(s) && Checkpointed(base, s) && AliasesOk(base) && n in s.colls
    ensures base.colls.Keys == s.colls.Keys && base.aliases == s.aliases
    ensures base.colls[n].id == s.colls[n].id && base.colls[n].aliases == s.colls[n].aliases
    ensures NameOf(IdsOf(base.colls), s.colls[n].id) == Some(n)
  {
    hide Slots.Valid, Wf, Keyed;
    AlikeIs(ViewsOf(base.colls), ViewsOf(s.colls));
    SameAliases(base, s);
    hide AliasesOk;
    SavedColl(base, s, n);
  }

  lemma SavedColl(base: State, s: State, n: string)
    requires Checkpointed(base, s) && n in s.colls
    ensures base.colls.Keys == s.colls.Keys
    ensures base.colls[n].id == s.colls[n].id && base.colls[n].aliases == s.colls[n].aliases
    ensures NameOf(IdsOf(base.colls), s.colls[n].id) == Some(n)
  {
    hide Slots.Valid;
    assert base.colls.Keys == ViewsOf(base.colls).Keys == ViewsOf(s.colls).Keys;
    assert Shown(base.colls[n]) == ViewsOf(base.colls)[n] == ViewsOf(s.colls)[n] == Shown(s.colls[n]);
    assert IdsOf(base.colls)[n] == base.colls[n].id;
    NameIs(IdsOf(base.colls), n);
  }

  lemma ReplayedOne(env: Env, s: State, e: Entry)
    ensures ReplayedAll(env, s, [e]) == Replayed(env, s, e)
  {
    assert [e][..0] == [] && ReplayedAll(env, s, [e][..0]) == Success(s);
  }

  /** Renaming a collection that has an alias: the live database resolves the alias
      to the new name. The reopened one does not find it; deleting it there answers
      Success, journals nothing and leaves it listed; and once another collection
      takes the old name, the alias resolves to that one. */
  lemma RenameLosesAlias(env: Env, base: State, s: State, n: string, to: string, a: string, config: Config)
    requires Wf(s) && AliasesOk(s) && Checkpointed(base, s) && AliasesOk(base)
    requires n in s.colls && a in s.colls[n].aliases && a !in s.colls && a != to && a != n
    requires ValidName(to) && to !in s.colls
    ensures var live := Renamed(s, n, to);
      var r := ReplayedAll(env, base, live.logged);
      && live.answer.Success? && Lookup(live.state, a) == Some(to)
      && r.Success? && a in r.value.aliases && r.value.aliases[a] == n && Lookup(r.value, a).None?
      && var deleted := Unaliased(r.value, a);
      && deleted.answer.Success? && deleted.logged == []
      && to in deleted.state.colls && a in deleted.state.colls[to].aliases
      && var again := Created(env, r.value, n, config, []);
      (again.answer.Success? ==> Lookup(again.state, a) == Some(n))
  {
    hide *;
    OwnedResolves(s, n, a);
    RenameReplayed(env, base, s, n, to);
    RenamedResolves(s, n, to, a);
    DanglingAlias(env, base.(colls := (base.colls - {n})[to := base.colls[n].(name := to)]), n, to, a, config);
  }

  lemma RenamedResolves(s: State, n: string, to: string, a: string)
    requires n in s.colls && a in s.colls[n].aliases && a !in s.colls && a != to && ValidName(to) && to !in s.colls
    ensures Renamed(s, n, to).answer.Success? && Lookup(Renamed(s, n, to).state, a) == Some(to)
  {
    hide Slots.Valid;
  }

  /** An alias that names no collection, listed by one that it does not name. */
  lemma DanglingAlias(env: Env, r: State, n: string, to: string, a: string, config: Config)
    requires a in r.aliases && r.aliases[a] == n && n !in r.colls && a !in r.colls && a != n
    requires to in r.colls && a in r.colls[to].aliases
    ensures Lookup(r, a).None?
    ensures var deleted := Unaliased(r, a);
      && deleted.answer.Success? && deleted.logged == []
      && to in deleted.state.colls && a in deleted.state.colls[to].aliases
    ensures var again := Created(env, r, n, config, []);
      again.answer.Success? ==> Lookup(again.state, a) == Some(n)
  {
    hide Slots.Valid;
  }

  lemma RenameReplayed(env: Env, base: State, s: State, n: string, to: string)
    requires Wf(s) && AliasesOk(s) && Checkpointed(base, s) && AliasesOk(base)
    requires n in s.colls && ValidName(to) && to !in s.colls
    ensures base.colls.Keys == s.colls.Keys && base.aliases == s.aliases
    ensures base.colls[n].aliases == s.colls[n].aliases
    ensures ReplayedAll(env, base, Renamed(s, n, to).logged) ==
      Success(base.(colls := (base.colls - {n})[to := base.colls[n].(name := to)]))
  {
    assert Renamed(s, n, to).logged == [Entry(s.colls[n].id, Rename(to))];
    hide *;
    SavedThere(base, s, n);
    MoveOne(env, base, s.colls[n].id, n, to);
    ReplayedOne(env, base, Entry(s.colls[n].id, Rename(to)));
  }

  lemma MoveOne(env: Env, base: State, id: nat, n: string, to: string)
    requires NameOf(IdsOf(base.colls), id) == Some(n)
    ensures n in base.colls
    ensures Replayed(env, base, Entry(id, Rename(to))) ==
      Success(base.(colls := (base.colls - {n})[to := base.colls[n].(name := to)]))
    ensures Replayed(env, base, Entry(id, DropColl)) == Success(base.(colls := base.colls - {n}))
  {
    hide Slots.Valid;
  }

  lemma DropReplayed(env: Env, base: State, s: State, n: string)
    requires Wf(s) && AliasesOk(s) && Checkpointed(base, s) && AliasesOk(base) && n in s.colls
    ensures base.colls.Keys == s.colls.Keys && base.aliases == s.aliases
    ensures ReplayedAll(env, base, Dropped(s, n).logged) == Success(base.(colls := base.colls - {n}))
  {
    assert Dropped(s, n).logged == [Entry(s.colls[n].id, DropColl)];
    hide *;
    SavedThere(base, s, n);
    MoveOne(env, base, s.colls[n].id, n, n);
    ReplayedOne(env, base, Entry(s.colls[n].id, DropColl));
  }

  /** Dropping a collection that has an alias: the live database frees the alias,
      the reopened one holds on to it and refuses to set it again. */
  lemma DropKeepsAlias(env: Env, base: State, s: State, n: string, a: string, m: string)
    requires Wf(s) && AliasesOk(s) && Checkpointed(base, s) && AliasesOk(base)
    requires n in s.colls && a in s.colls[n].aliases && ValidName(a) && a !in s.colls && m in s.colls && m != n
    ensures var live := Dropped(s, n);
      var r := ReplayedAll(env, base, live.logged);
      && Aliased(live.state, a, m).answer.Success?
      && r.Success? && Aliased(r.value, a, m).answer == Failure(AlreadyExists) && Lookup(r.value, a).None?
  {
    hide *;
    OwnedResolves(s, n, a);
    DropReplayed(env, base, s, n);
    DroppedFrees(s, n, a, m);
    StillTaken(base.(colls := base.colls - {n}), n, a, m);
  }

  lemma DroppedFrees(s: State, n: string, a: string, m: string)
    requires n in s.colls && a in s.colls[n].aliases && ValidName(a) && a !in s.colls && m in s.colls && m != n
    ensures Aliased(Dropped(s, n).state, a, m).answer.Success?
  {
    hide Slots.Valid, ValidName;
  }

  lemma StillTaken(r: State, n: string, a: string, m: string)
    requires a in r.aliases && r.aliases[a] == n && n !in r.colls && a !in r.colls && ValidName(a)
    ensures Aliased(r, a, m).answer == Failure(AlreadyExists) && Lookup(r, a).None?
  {
    hide Slots.Valid, ValidName;
  }
}
