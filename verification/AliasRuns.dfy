/** Aliases over whole runs of the database, with checkpoints, vacuums and crashes:
    when a reopened database resolves them to the collections that list them. */
module AliasRuns {
  import opened Aliases
  import opened Checkpoint
  import opened Crashes
  import opened Linear
  import opened Recovery
  import opened Registry
  import Slots

  // ----- what the alias lists of a file grant -------------------------------

  /** No alias is listed by two collections. */
  ghost predicate Apart(v: Views) {
    forall m, n, a :: m in v && n in v && a in v[m].aliases && a in v[n].aliases ==> m == n
  }

  function Listed(v: Views): set<string> {
    set n, a | n in v && a in v[n].aliases :: a
  }

  ghost function OwnerIn(v: Views, a: string): (g: Grant)
    requires a in Listed(v)
    ensures g.name in v && a in v[g.name].aliases && v[g.name].id == g.id
  {
    var n :| n in v && a in v[n].aliases;
    Grant(v[n].id, n)
  }

  ghost function ListedGrants(v: Views): Grants {
    map a | a in Listed(v) :: OwnerIn(v, a)
  }

  ghost function NamesIn(v: Views): Names {
    NamesOf(ViewIds(v))
  }

  lemma ListedIs(v: Views)
    requires Apart(v) && DistinctIdsIn(ViewIds(v))
    ensures Granted(v, ListedGrants(v)) && Inverse(ViewIds(v), NamesIn(v)) && NamesHold(ListedGrants(v), NamesIn(v))
  {
    var g, ids := ListedGrants(v), ViewIds(v);
    NamesOfInverse(ids);
    forall n, a | n in v ensures a in v[n].aliases <==> a in g && g[a].id == v[n].id {
      if a in g && g[a].id == v[n].id {
        assert ids[g[a].name] == g[a].id == ids[n];
      }
    }
    forall a | a in g ensures g[a].id in NamesIn(v) && NamesIn(v)[g[a].id] == g[a].name {
      assert ids[g[a].name] == g[a].id;
    }
  }

  lemma ListedByOwner(s: State, n: string, a: string)
    requires AliasesOk(s) && Keyed(s.colls) && n in s.colls
    ensures n in ViewsOf(s.colls)
    ensures a in ViewsOf(s.colls)[n].aliases ==> a in Owners(s) && Owners(s)[a] == Grant(ViewsOf(s.colls)[n].id, n)
  {
    hide Slots.Valid;
    OwnerIs(s, n, a);
    assert ViewsOf(s.colls)[n] == Shown(s.colls[n]);
  }

  /** The lists of a consistent registry are apart, and grant what it resolves. */
  lemma ConsistentApart(s: State)
    requires AliasesOk(s) && Keyed(s.colls)
    ensures Apart(ViewsOf(s.colls))
    ensures ListedGrants(ViewsOf(s.colls)) == Owners(s)
  {
    hide Slots.Valid, Keyed, Shown;
    var v := ViewsOf(s.colls);
    forall n, a | n in v && a in v[n].aliases ensures a in Owners(s) && Owners(s)[a] == Grant(v[n].id, n) {
      ListedByOwner(s, n, a);
    }
    forall a ensures a in Listed(v) <==> a in Owners(s) {
      if a in Owners(s) {
        OwnerListed(s, a);
      }
    }
    hide AliasesOk, ViewsOf;
    var g := Owners(s);
    OneOwnerEach(v, g);
  }

  lemma OneOwnerEach(v: Views, g: Grants)
    requires forall n, a :: n in v && a in v[n].aliases ==> a in g && g[a] == Grant(v[n].id, n)
    requires forall a :: a in Listed(v) <==> a in g
    ensures Apart(v) && ListedGrants(v) == g
  {
    forall m, n, a | m in v && n in v && a in v[m].aliases && a in v[n].aliases ensures m == n {
      assert g[a].name == m && g[a].name == n;
    }
    forall a | a in g ensures OwnerIn(v, a) == g[a] {
    }
  }

  lemma OwnerListed(s: State, a: string)
    requires AliasesOk(s) && a in s.aliases
    ensures a in Listed(ViewsOf(s.colls))
  {
    hide Slots.Valid;
    var v, n := ViewsOf(s.colls), s.aliases[a];
    assert n in v && a in v[n].aliases;
  }

  lemma ApartAlike(v: Views, w: Views)
    requires Alike(false, v, w) && Apart(v)
    ensures Apart(w)
  {
    forall n | n in v ensures v[n].aliases == w[n].aliases {
      assert Same(false, v[n], w[n]);
    }
  }

  // ----- the invariant ------------------------------------------------------

  /** What the aliases of a run rely on: memory is consistent, and so is the file
      with the part of its journal that can be replayed. */
  ghost predicate Backed(env: Env, s: Sys)
    requires DiskOk(env, s.disk)
  {
    var v := Saved(s.disk);
    var g, names, sound := ListedGrants(v), NamesIn(v), Sound(s.disk.journal);
    && AliasesOk(s.mem) && Apart(v) && Proper(env, v, g, names, sound)
    && (sound == s.disk.journal && !s.disk.torn ==> GrantsBelow(GrantsAfter(g, names, sound), s.mem.nextId))
  }

  /** The journal of a file renames and drops no collection away from an alias. */
  ghost predicate KeepsSaved(env: Env, disk: Disk)
    requires DiskOk(env, disk)
  {
    KeepsNames(ListedGrants(Saved(disk)), NamesIn(Saved(disk)), disk.journal)
  }

  lemma BuiltBacked(exact: bool, env: Env, s: Sys, t: Sys, op: Op)
    requires SqrtLaw(env.sqrt) && Inv(exact, env, s) && Operates(exact, env, s, t, op) && Backed(env, s)
    requires !Unbuildable(env, s.mem, op) && !s.disk.torn && Sound(s.disk.journal) == s.disk.journal
    requires DiskOk(env, t.disk) && AliasesOk(t.mem)
    ensures Backed(env, t)
  {
    hide Slots.Valid;
    var v, journal, logged := Saved(s.disk), s.disk.journal, Step(env, s.mem, op).logged;
    var g, names := ListedGrants(v), NamesIn(v);
    assert Saved(t.disk) == v && t.disk.journal == journal + logged;
    RoughMeans(exact, AppliedAll(env, v, journal).value, ViewsOf(s.mem.colls));
    StepStaysProper(env, v, g, names, journal, s.mem, op);
    LoggedIds(env, s.mem, op);
    GrantsJoin(g, names, journal, logged);
    hide Step, Proper, AppliedAll, GrantsAfter, NamesAfter, AliasesOk;
    GrantsStayBelow(GrantsAfter(g, names, journal), NamesAfter(names, journal), logged, t.mem.nextId);
    StepSound(env, s.mem, op, journal);
  }

  lemma RoughMeans(exact: bool, v: Views, w: Views)
    requires Alike(exact, v, w)
    ensures Alike(false, v, w)
  {
    forall n | n in v ensures Same(false, v[n], w[n]) {
      assert Same(exact, v[n], w[n]);
    }
  }

  lemma StepSound(env: Env, s: State, op: Op, journal: seq<Entry>)
    requires Wf(s) && SqrtLaw(env.sqrt) && !Unbuildable(env, s, op) && Sound(journal) == journal
    ensures Sound(journal + Step(env, s, op).logged) == journal + Step(env, s, op).logged
  {
    StepRefines(false, env, s, op);
    AppliedBuildable(env, ViewsOf(s.colls), Step(env, s, op).logged);
    SoundJoin(journal, Step(env, s, op).logged);
  }

  lemma StuckBacked(exact: bool, env: Env, s: Sys, t: Sys, op: Op)
    requires Operates(exact, env, s, t, op) && DiskOk(env, s.disk) && Backed(env, s)
    requires s.disk.torn || |Sound(s.disk.journal)| < |s.disk.journal| || Unbuildable(env, s.mem, op)
    requires Inv(exact, env, s) && DiskOk(env, t.disk) && AliasesOk(t.mem)
    ensures Backed(env, t)
  {
    hide Slots.Valid, AliasesOk, Proper, AppliedAll, GrantsAfter;
    var journal, logged := s.disk.journal, Step(env, s.mem, op).logged;
    assert Saved(t.disk) == Saved(s.disk);
    if !s.disk.torn {
      SoundJoin(journal, logged);
      if |Sound(journal)| == |journal| {
        RefusedLeaves(env, s.mem, op);
      }
    }
  }

  lemma OperateBacked(exact: bool, env: Env, s: Sys, t: Sys, op: Op)
    requires SqrtLaw(env.sqrt) && Inv(exact, env, s) && Inv(exact, env, t) && Operates(exact, env, s, t, op)
    requires Backed(env, s)
    ensures Backed(env, t)
  {
    StepKeepsAliases(env, s.mem, op);
    if s.disk.torn || |Sound(s.disk.journal)| < |s.disk.journal| || Unbuildable(env, s.mem, op) {
      StuckBacked(exact, env, s, t, op);
    } else {
      BuiltBacked(exact, env, s, t, op);
    }
  }

  /** A commit writes the lists that memory has. */
  lemma CommitBacked(exact: bool, env: Env, s: Sys, t: Sys)
    requires Inv(exact, env, s) && Inv(exact, env, t) && AliasesOk(t.mem)
    requires Alike(exact, Saved(t.disk), ViewsOf(t.mem.colls)) && t.disk.journal == []
    ensures Backed(env, t)
  {
    hide Slots.Valid;
    var v, w := Saved(t.disk), ViewsOf(t.mem.colls);
    RoughMeans(exact, v, w);
    AlikeTurns(false, v, w);
    ConsistentApart(t.mem);
    ApartAlike(w, v);
    ListedBelow(t.mem, v);
  }

  lemma ListedBelow(s: State, v: Views)
    requires Wf(s) && Alike(false, v, ViewsOf(s.colls))
    ensures GrantsBelow(ListedGrants(v), s.nextId)
  {
    hide Slots.Valid;
    SameIds(s.colls);
    AlikeIds(false, v, ViewsOf(s.colls));
    forall a | a in ListedGrants(v) ensures ListedGrants(v)[a].id < s.nextId {
      assert ViewIds(v)[ListedGrants(v)[a].name] == ListedGrants(v)[a].id;
    }
  }

  lemma MarkedAliases(s: Sys, t: Sys)
    requires Checkpoints(s, t) || Vacuums(s, t)
    ensures AliasesOk(s.mem) ==> AliasesOk(t.mem)
  {
    hide Slots.Valid, Sealing;
    assert OwnOf(t.mem.colls) == OwnOf(s.mem.colls) && t.mem.aliases == s.mem.aliases;
  }

  lemma CheckpointBacked(exact: bool, env: Env, s: Sys, t: Sys)
    requires Inv(exact, env, s) && (Checkpoints(s, t) || Vacuums(s, t)) && Backed(env, s)
    ensures DiskOk(env, t.disk) && Backed(env, t)
  {
    hide Slots.Valid, Proper, GrantsAfter, AliasesOk, Inv, Checkpoints, Vacuums, Apart;
    assert AliasesOk(s.mem);
    hide *;
    MarkedAliases(s, t);
    if Checkpoints(s, t) {
      CheckpointKeepsInv(exact, env, s, t);
    } else {
      VacuumKeepsInv(exact, env, s, t);
    }
    CommitBacked(exact, env, s, t);
  }

  // ----- reopening ----------------------------------------------------------

  lemma GatheredAgrees(aliases: map<string, string>, v: Views)
    requires Gathered(aliases, Each(v, ViewAliases)) && Apart(v) && DistinctIdsIn(ViewIds(v))
    ensures aliases == NamedBy(ListedGrants(v))
  {
    var own, g := Each(v, ViewAliases), ListedGrants(v);
    forall a ensures a in aliases <==> a in g {
      if a in aliases {
        assert aliases[a] in v && a in v[aliases[a]].aliases;
      }
      if a in g {
        assert g[a].name in own && a in own[g[a].name];
      }
    }
    forall a | a in aliases ensures aliases[a] == g[a].name {
      assert aliases[a] in v && a in v[aliases[a]].aliases;
    }
  }

  /** Opening a backed file gets the aliases right exactly when its journal renames
      and drops no collection away from an alias. */
  lemma OpenAliasesIff(env: Env, disk: Disk, mem: State)
    requires DiskOk(env, disk) && Opens(env, disk, mem) && Apart(Saved(disk))
    requires Proper(env, Saved(disk), ListedGrants(Saved(disk)), NamesIn(Saved(disk)), disk.journal)
    ensures AliasesOk(mem) <==> KeepsSaved(env, disk)
  {
    hide Slots.Valid, Proper, Apart, Agree, ReplayedAll;
    var v := Saved(disk);
    var g, names := ListedGrants(v), NamesIn(v);
    var base: State :| LoadedFrom(env, disk, base) && Continues(env, base, disk, mem);
    assert Gathered(base.aliases, OwnOf(base.colls)) && ReplayedAll(env, base, disk.journal).Success?;
    assert mem.aliases == ReplayedAll(env, base, disk.journal).value.aliases;
    assert AliasesOk(mem) <==> AliasesOk(ReplayedAll(env, base, disk.journal).value);
    hide *;
    LoadedShows(env, disk);
    SameIds(base.colls);
    OwnIsShown(base.colls);
    SavedIds(env, disk);
    ListedIs(v);
    GatheredAgrees(base.aliases, v);
    ReplayAgreesIff(env, base, g, names, disk.journal);
    NamesHoldIff(env, v, g, names, disk.journal);
  }

  lemma SavedIds(env: Env, disk: Disk)
    requires DiskOk(env, disk)
    ensures ViewIds(Saved(disk)) == Each(disk.toc, EntryId) && DistinctIdsIn(ViewIds(Saved(disk)))
  {
    assert ViewIds(Saved(disk)) == Each(disk.toc, EntryId);
  }

  lemma ReopenProper(exact: bool, env: Env, s: Sys, t: Sys)
    requires SqrtLaw(env.sqrt) && Inv(exact, env, s) && Reopens(env, s, t) && Backed(env, s)
    ensures Saved(t.disk) == Saved(s.disk) && Apart(Saved(t.disk)) && Sound(t.disk.journal) == t.disk.journal
    ensures Proper(env, Saved(t.disk), ListedGrants(Saved(t.disk)), NamesIn(Saved(t.disk)), t.disk.journal)
  {
    hide Slots.Valid, Proper, AppliedAll, AliasesOk, Apart;
    var v, c, sound := Saved(s.disk), |t.disk.journal|, Sound(s.disk.journal);
    assert Saved(t.disk) == v;
    ReopenKeepsInv(exact, env, s, t);
    SoundPrefix(s.disk.journal, c);
    if c <= |sound| {
      ProperPrefix(env, v, ListedGrants(v), NamesIn(v), sound, c);
      assert sound[..c] == t.disk.journal;
    }
  }

  lemma ReopenBelow(env: Env, disk: Disk, mem: State)
    requires DiskOk(env, disk) && Opens(env, disk, mem)
    ensures GrantsBelow(GrantsAfter(ListedGrants(Saved(disk)), NamesIn(Saved(disk)), disk.journal), mem.nextId)
  {
    hide Slots.Valid, ReplayedAll;
    var v := Saved(disk);
    var base: State :| LoadedFrom(env, disk, base) && Continues(env, base, disk, mem);
    SavedIds(env, disk);
    forall a | a in ListedGrants(v) ensures ListedGrants(v)[a].id < mem.nextId {
      assert ViewIds(v)[ListedGrants(v)[a].name] == ListedGrants(v)[a].id;
    }
    hide *;
    GrantsBelowIs(ListedGrants(v), mem.nextId);
    GrantsStayBelow(ListedGrants(v), NamesIn(v), disk.journal, mem.nextId);
  }

  lemma GrantsBelowIs(g: Grants, limit: nat)
    requires forall a :: a in g ==> g[a].id < limit
    ensures GrantsBelow(g, limit)
  {
  }

  lemma ReopenBacked(exact: bool, env: Env, s: Sys, t: Sys)
    requires SqrtLaw(env.sqrt) && Inv(exact, env, s) && Reopens(env, s, t) && Backed(env, s)
    ensures DiskOk(env, t.disk)
    ensures AliasesOk(t.mem) <==> KeepsSaved(env, t.disk)
    ensures AliasesOk(t.mem) ==> Backed(env, t)
  {
    ReopenProper(exact, env, s, t);
    hide *;
    ReopensOpens(env, s, t);
    OpenAliasesIff(env, t.disk, t.mem);
    ReopenBelow(env, t.disk, t.mem);
    if AliasesOk(t.mem) {
      BackedIs(env, t);
    }
  }

  lemma ReopensOpens(env: Env, s: Sys, t: Sys)
    requires Reopens(env, s, t)
    ensures DiskOk(env, t.disk) && Opens(env, t.disk, t.mem)
  {
  }

  lemma BackedIs(env: Env, t: Sys)
    requires DiskOk(env, t.disk) && AliasesOk(t.mem) && Apart(Saved(t.disk)) && Sound(t.disk.journal) == t.disk.journal
    requires Proper(env, Saved(t.disk), ListedGrants(Saved(t.disk)), NamesIn(Saved(t.disk)), t.disk.journal)
    requires GrantsBelow(GrantsAfter(ListedGrants(Saved(t.disk)), NamesIn(Saved(t.disk)), t.disk.journal), t.mem.nextId)
    ensures Backed(env, t)
  {
  }

  // ----- every reachable state ----------------------------------------------

  /** A step that is not a reopening with a collection renamed or dropped after an
      alias was set for it, since the last commit. */
  ghost predicate TrueStep(exact: bool, env: Env, s: Sys, t: Sys) {
    || Works(exact, env, s, t) || Checkpoints(s, t) || Vacuums(s, t)
    || (Reopens(env, s, t) && KeepsSaved(env, t.disk))
  }

  ghost predicate TrueRun(exact: bool, env: Env, run: seq<Sys>) {
    IsRun(exact, env, run) && forall i :: 0 <= i < |run| - 1 ==> TrueStep(exact, env, run[i], run[i + 1])
  }

  lemma EmptyBacked(env: Env)
    ensures var s := Sys(EMPTY_STATE, Disk(map[], map[], [], false)); DiskOk(env, s.disk) && Backed(env, s)
  {
    hide Slots.Valid;
    var disk := Disk(map[], map[], [], false);
    assert DiskOk(env, disk) && Saved(disk) == map[];
    EmptyLists();
    assert AliasesOk(EMPTY_STATE);
    BackedIs(env, Sys(EMPTY_STATE, disk));
  }

  lemma EmptyLists()
    ensures Apart(map[]) && ListedGrants(map[]) == map[]
  {
  }

  lemma TrueStepBacked(exact: bool, env: Env, s: Sys, t: Sys)
    requires SqrtLaw(env.sqrt) && Inv(exact, env, s) && Inv(exact, env, t) && Backed(env, s) &&
      TrueStep(exact, env, s, t)
    ensures Backed(env, t)
  {
    hide Inv, Backed, Checkpoints, Vacuums, Reopens, KeepsSaved, Operates;
    if Works(exact, env, s, t) {
      var op :| Operates(exact, env, s, t, op);
      OperateBacked(exact, env, s, t, op);
    } else if Checkpoints(s, t) || Vacuums(s, t) {
      CheckpointBacked(exact, env, s, t);
    } else {
      ReopenBacked(exact, env, s, t);
    }
  }

  lemma RunSteps(exact: bool, env: Env, run: seq<Sys>, i: nat)
    requires TrueRun(exact, env, run) && i < |run|
    ensures IsRun(exact, env, run) && run[0] == Sys(EMPTY_STATE, Disk(map[], map[], [], false))
    ensures i > 0 ==> TrueStep(exact, env, run[i - 1], run[i])
  {
    hide TrueStep, SysStep;
  }

  lemma {:induction false} RunBacked(exact: bool, env: Env, run: seq<Sys>, i: nat)
    requires SqrtLaw(env.sqrt) && TrueRun(exact, env, run) && i < |run|
    ensures DiskOk(env, run[i].disk) && Backed(env, run[i])
  {
    hide *;
    RunSteps(exact, env, run, i);
    if i == 0 {
      EmptyBacked(env);
    } else {
      ReachableInv(exact, env, run, i - 1);
      ReachableInv(exact, env, run, i);
      InvDisk(exact, env, run[i - 1]);
      InvDisk(exact, env, run[i]);
      RunBacked(exact, env, run, i - 1);
      TrueStepBacked(exact, env, run[i - 1], run[i]);
    }
  }

  /** As long as no reopening went wrong, aliases resolve to the collections that
      list them. */
  lemma AliasesResolve(exact: bool, env: Env, run: seq<Sys>, i: nat)
    requires SqrtLaw(env.sqrt) && TrueRun(exact, env, run) && i < |run|
    ensures AliasesOk(run[i].mem)
  {
    RunBacked(exact, env, run, i);
  }

  /** A reopening goes right if and only if the journal it reads renames and drops no
      collection after an alias in force was set for it. */
  lemma ReopeningAliasesIff(exact: bool, env: Env, run: seq<Sys>, i: nat, t: Sys)
    requires SqrtLaw(env.sqrt) && TrueRun(exact, env, run) && i < |run| && Reopens(env, run[i], t)
    ensures DiskOk(env, t.disk) && (AliasesOk(t.mem) <==> KeepsSaved(env, t.disk))
  {
    hide *;
    RunSteps(exact, env, run, i);
    RunBacked(exact, env, run, i);
    ReachableInv(exact, env, run, i);
    ReopenBacked(exact, env, run[i], t);
  }
}
