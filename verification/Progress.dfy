/** What can always happen: a checkpoint and a vacuum can be made in every state, and a
    crash can leave any part of the journal, after which the file opens again. So what is
    said of every run is said of all these. And what checkpoints and vacuums achieve. */
module Progress {
  import opened Aliases
  import opened Checkpoint
  import opened Collections
  import opened Crashes
  import opened Linear
  import opened Recovery
  import opened Registry
  import Slots

  // ----- checkpoints --------------------------------------------------------

  /** A reference that no segment has. */
  lemma {:induction false} Unused(refs: set<nat>) returns (limit: nat)
    ensures forall r :: r in refs ==> r < limit
  {
    if refs == {} {
      limit := 0;
    } else {
      var r :| r in refs;
      var below := Unused(refs - {r});
      limit := if r < below then below else r + 1;
      assert forall q :: q in refs ==> q == r || q in refs - {r};
    }
  }

  /** Every collection of a set is sealed. */
  ghost predicate AllSealed(
    reuse: bool, before: map<nat, Segment>, colls: map<string, Coll>, after: map<nat, Segment>,
    toc: map<string, TocEntry>)
    requires toc.Keys <= colls.Keys
  {
    && (forall r :: r in before ==> r in after && after[r] == before[r])
    && forall name :: name in toc ==> SealedAs(reuse, before, after, colls[name], toc[name])
  }

  lemma StaysSealed(
    reuse: bool, before: map<nat, Segment>, colls: map<string, Coll>, after: map<nat, Segment>,
    toc: map<string, TocEntry>, r: nat, seg: Segment)
    requires toc.Keys <= colls.Keys && AllSealed(reuse, before, colls, after, toc) && r !in after
    ensures AllSealed(reuse, before, colls, after[r := seg], toc)
  {
    hide Slots.Valid, Content, PointsOf;
  }

  lemma OneSealed(reuse: bool, before: map<nat, Segment>, c: Coll, after: map<nat, Segment>, r: nat)
    returns (e: TocEntry)
    requires r !in before && r in after && after[r] == Content(c)
    ensures SealedAs(reuse, before, after, c, e)
  {
    hide Slots.Valid, Content, PointsOf;
    var k := Reusable(c.data);
    e := TocEntry(c.id, c.name, c.aliases,
      if reuse && k.Some? then k.value else Slots.Committed(r, |PointsOf(c)|, 0));
  }

  lemma {:induction false} CanSeal(reuse: bool, before: map<nat, Segment>, colls: map<string, Coll>, names: set<string>)
    returns (after: map<nat, Segment>, toc: map<string, TocEntry>)
    requires names <= colls.Keys
    ensures toc.Keys == names && AllSealed(reuse, before, colls, after, toc)
  {
    hide Slots.Valid;
    if names == {} {
      after, toc := before, map[];
    } else {
      var name :| name in names;
      var front: map<nat, Segment>, listed: map<string, TocEntry>;
      front, listed := CanSeal(reuse, before, colls, names - {name});
      var r := Unused(front.Keys);
      hide SealedAs;
      StaysSealed(reuse, before, colls, front, listed, r, Content(colls[name]));
      after := front[r := Content(colls[name])];
      var e := OneSealed(reuse, before, colls[name], after, r);
      toc := listed[name := e];
    }
  }

  /** A checkpoint can be made in every state. */
  lemma CheckpointPossible(s: Sys) returns (t: Sys)
    ensures Checkpoints(s, t)
  {
    hide Slots.Valid;
    if NothingToCommit(s.mem.colls, s.disk) {
      t := s;
    } else {
      var after, toc := CanSeal(true, s.disk.segments, s.mem.colls, s.mem.colls.Keys);
      hide SealedAs, NothingToCommit;
      t := Sys(s.mem.(colls := AllMarked(s.mem.colls, toc)), Disk(after, toc, [], false));
    }
  }

  /** So can a vacuum. */
  lemma VacuumPossible(s: Sys) returns (t: Sys)
    ensures Vacuums(s, t)
  {
    hide Slots.Valid;
    var colls := Each<Coll, Coll>(s.mem.colls, CompactedColl);
    var after, toc := CanSeal(false, map[], colls, colls.Keys);
    hide SealedAs, CompactedColl;
    t := Sys(s.mem.(colls := colls), Disk(after, toc, [], false));
  }

  /** Right after a checkpoint another one has nothing to do. */
  lemma CheckpointSettles(s: Sys, t: Sys, u: Sys)
    requires Commits(s, t) && s.mem.colls.Keys != {} && Checkpoints(t, u)
    ensures NothingToCommit(t.mem.colls, t.disk) && u == t
  {
    hide Slots.Valid;
    var colls, toc := s.mem.colls, t.disk.toc;
    assert t.mem.colls == AllMarked(colls, toc);
    hide Sealing, Commits;
    forall name | name in t.mem.colls ensures Reusable(t.mem.colls[name].data).Some? {
      assert t.mem.colls[name] == MarkedSealed(colls[name], toc[name].counts);
    }
  }

  /** After a vacuum no collection has a tombstone or a base tier. */
  lemma VacuumLeavesNoTombstones(s: Sys, t: Sys, name: string)
    requires Vacuums(s, t) && name in s.mem.colls
    ensures name in t.mem.colls
    ensures t.mem.colls[name].data.tombstones == {} && t.mem.colls[name].data.base.None?
  {
    var c := s.mem.colls[name];
    assert t.mem.colls[name] == CompactedColl(c);
    hide Sealing, Vacuums;
    Slots.CompactRefines(c.data, c.config.dimension, c.config.metric);
    CompactedIsClean(c.data, c.config.dimension, c.config.metric);
  }

  // ----- crashes ------------------------------------------------------------

  ghost function OwnerOf(own: Own, a: string): string
    requires exists n :: n in own && a in own[n]
  {
    var n :| n in own && a in own[n];
    n
  }

  /** However the lists clash, an alias table can be gathered from them. */
  lemma GatheredExists(own: Own) returns (aliases: map<string, string>)
    ensures Gathered(aliases, own)
  {
    var listed := set n, a | n in own && a in own[n] :: a;
    aliases := map a | a in listed :: OwnerOf(own, a);
  }

  lemma LimitExists(ids: map<string, nat>, more: map<string, nat>, es: seq<Entry>) returns (limit: nat)
    ensures Below(ids, limit) && Below(more, limit) && AllBelow(es, limit)
  {
    var logged := set i | 0 <= i < |es| :: es[i].collId;
    limit := Unused(ids.Values + more.Values + logged);
    forall i | 0 <= i < |es| ensures es[i].collId < limit {
      assert es[i].collId in logged;
    }
    forall name | name in ids ensures ids[name] < limit {
      assert ids[name] in ids.Values;
    }
    forall name | name in more ensures more[name] < limit {
      assert more[name] in more.Values;
    }
  }

  lemma CutReplays(exact: bool, env: Env, s: Sys, c: nat, base: State)
    requires SqrtLaw(env.sqrt) && Inv(exact, env, s) && c <= |s.disk.journal| && AllBuildable(s.disk.journal[..c])
    requires base.colls == Loaded(env, s.disk)
    ensures ReplayedAll(env, base, s.disk.journal[..c]).Success?
  {
    hide Slots.Valid;
    var journal := s.disk.journal;
    SoundIs(journal[..c]);
    SoundPrefix(journal, c);
    assert c <= |Sound(journal)| && Sound(journal)[..c] == journal[..c];
    LoadedShows(env, s.disk);
    AppliedPrefix(env, Saved(s.disk), Sound(journal), c);
    hide *;
    ReplayRefines(env, base, journal[..c]);
  }

  /** Wherever a run is, a crash may leave any part of the journal that holds no refused
      creation, with or without an unfinished entry behind it, and the file opens. */
  lemma AnyCrashReopens(exact: bool, env: Env, run: seq<Sys>, i: nat, c: nat, torn: bool) returns (t: Sys)
    requires SqrtLaw(env.sqrt) && IsRun(exact, env, run) && i < |run| && c <= |run[i].disk.journal|
    requires AllBuildable(run[i].disk.journal[..c])
    ensures Reopens(env, run[i], t) && t.disk == run[i].disk.(journal := run[i].disk.journal[..c], torn := torn)
    ensures IsRun(exact, env, run[..i + 1] + [t])
  {
    var s, disk := run[i], run[i].disk.(journal := run[i].disk.journal[..c], torn := torn);
    hide *;
    ReachableInv(exact, env, run, i);
    InvDisk(exact, env, s);
    t := OpenedFrom(exact, env, s, disk, c);
    OneMoreStep(exact, env, run, i, t);
  }

  lemma OpenedFrom(exact: bool, env: Env, s: Sys, disk: Disk, c: nat) returns (t: Sys)
    requires SqrtLaw(env.sqrt) && Inv(exact, env, s) && DiskOk(env, s.disk) && c <= |s.disk.journal|
    requires AllBuildable(s.disk.journal[..c]) && disk == s.disk.(journal := s.disk.journal[..c], torn := disk.torn)
    ensures Reopens(env, s, t) && t.disk == disk
  {
    SameLoaded(env, s.disk, disk);
    var colls := Loaded(env, disk);
    var aliases := GatheredExists(OwnOf(colls));
    var base := State(colls, aliases, 0);
    CutReplays(exact, env, s, c, base);
    hide *;
    var mem := OpenedBy(env, disk, base);
    t := Sys(mem, disk);
    ReopensBy(env, s, t, c);
  }

  lemma SameLoaded(env: Env, a: Disk, b: Disk)
    requires DiskOk(env, a) && a.segments == b.segments && a.toc == b.toc
    ensures DiskOk(env, b) && Loaded(env, a) == Loaded(env, b)
  {
    hide Slots.Valid;
  }

  lemma OpenedBy(env: Env, disk: Disk, base: State) returns (mem: State)
    requires DiskOk(env, disk) && LoadedFrom(env, disk, base) && ReplayedAll(env, base, disk.journal).Success?
    ensures Opens(env, disk, mem)
  {
    var r := ReplayedAll(env, base, disk.journal).value;
    var limit := LimitExists(IdsOf(r.colls), Each(disk.toc, EntryId), disk.journal);
    mem := State(r.colls, r.aliases, limit);
    hide Slots.Valid, ReplayedAll, Below, AllBelow, LoadedFrom, DiskOk;
    assert Continues(env, base, disk, mem);
  }

  lemma ReopensBy(env: Env, s: Sys, t: Sys, c: nat)
    requires c <= |s.disk.journal| && t.disk == s.disk.(journal := s.disk.journal[..c], torn := t.disk.torn)
    requires Opens(env, t.disk, t.mem)
    ensures Reopens(env, s, t)
  {
    hide Opens, Slots.Valid;
  }

  lemma OneMoreStep(exact: bool, env: Env, run: seq<Sys>, i: nat, t: Sys)
    requires IsRun(exact, env, run) && i < |run| && Reopens(env, run[i], t)
    ensures IsRun(exact, env, run[..i + 1] + [t])
  {
    hide Reopens, Works, Checkpoints, Vacuums;
    var longer := run[..i + 1] + [t];
    forall k | 0 <= k < |longer| - 1 ensures SysStep(exact, env, longer[k], longer[k + 1]) {
      if k < i {
        assert longer[k] == run[k] && longer[k + 1] == run[k + 1];
      } else {
        assert longer[k] == run[i] && longer[k + 1] == t;
      }
    }
  }
}
