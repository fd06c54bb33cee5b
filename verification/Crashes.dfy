/** Whole runs: a database that crashes at any point of any run of operations
    reopens with what the journal says, and the journal says what was done. */
module Crashes {
  import opened Core
  import opened Collections
  import opened Linear
  import opened Recovery
  import opened Registry
  import Slots
  import opened Words

  /** What a run leaves in memory and what it appended to the journal. */
  datatype Trace = Trace(state: State, journal: seq<Entry>)

  ghost function Ran(env: Env, s: State, ops: seq<Op>): Trace {
    if ops == [] then Trace(s, [])
    else
      var before := Ran(env, s, ops[..|ops| - 1]);
      var o := Step(env, before.state, ops[|ops| - 1]);
      Trace(o.state, before.journal + o.logged)
  }

  ghost predicate AllRecoverable(ops: seq<Op>) {
    forall i :: 0 <= i < |ops| ==> Recoverable(ops[i])
  }

  /** No creation of the run was journaled and then refused. */
  ghost predicate AllBuilt(env: Env, s: State, ops: seq<Op>) {
    ops == [] ||
    var front := ops[..|ops| - 1];
    AllBuilt(env, s, front) && !Unbuildable(env, Ran(env, s, front).state, ops[|ops| - 1])
  }

  /** Memory and journal move together over every run: exactly, unless a creation
      declared a key first with one kind and last with another. */
  lemma {:induction false} RunRefines(exact: bool, env: Env, s: State, ops: seq<Op>)
    requires Wf(s) && SqrtLaw(env.sqrt) && (exact ==> AllRecoverable(ops)) && AllBuilt(env, s, ops)
    ensures var t := Ran(env, s, ops);
      var means := AppliedAll(env, ViewsOf(s.colls), t.journal);
      Wf(t.state) && means.Some? && Alike(exact, means.value, ViewsOf(t.state.colls))
  {
    hide Slots.Valid;
    if ops != [] {
      var front := ops[..|ops| - 1];
      RunRefines(exact, env, s, front);
      var before := Ran(env, s, front);
      var o := Step(env, before.state, ops[|ops| - 1]);
      StepRefines(exact, env, before.state, ops[|ops| - 1]);
      AppliedOnward(exact, env, ViewsOf(s.colls), before.journal, ViewsOf(before.state.colls), o.logged,
                    ViewsOf(o.state.colls));
    }
  }

  /** A checkpointed registry that shows what the live one showed. */
  ghost predicate Checkpointed(base: State, s: State) {
    Keyed(base.colls) && ViewsOf(base.colls) == ViewsOf(s.colls)
  }

  /** The same, exactly or up to the kinds of declared indexes. */
  ghost predicate Reopened(exact: bool, base: State, s: State) {
    Keyed(base.colls) && Alike(exact, ViewsOf(base.colls), ViewsOf(s.colls))
  }

  /** Reopening after a complete journal shows what the live database showed. */
  lemma WholeJournal(exact: bool, env: Env, base: State, s: State, ops: seq<Op>)
    requires Wf(s) && Checkpointed(base, s) && SqrtLaw(env.sqrt)
    requires (exact ==> AllRecoverable(ops)) && AllBuilt(env, s, ops)
    ensures var r := ReplayedAll(env, base, Ran(env, s, ops).journal);
      r.Success? && Reopened(exact, r.value, Ran(env, s, ops).state)
  {
    RunRefines(exact, env, s, ops);
    ReplayRefines(env, base, Ran(env, s, ops).journal);
  }

  // ----- a crash inside an operation ----------------------------------------

  ghost function Upto(env: Env, s: State, ops: seq<Op>, k: nat): Trace
    requires k <= |ops|
  {
    Ran(env, s, ops[..k])
  }

  /** The views after a crash with `c` entries on disk: those after some whole
      operation, or those of a creation that declared its first indexes only. */
  ghost predicate CutView(exact: bool, env: Env, s: State, ops: seq<Op>, c: nat, v: Views) {
    || (exists k :: 0 <= k <= |ops| && BetweenSteps(exact, Upto(env, s, ops, k), c, v))
    || (exists k :: 0 <= k < |ops| && InsideCreation(exact, Upto(env, s, ops, k), ops[k], c, v))
  }

  ghost predicate BetweenSteps(exact: bool, before: Trace, c: nat, v: Views) {
    |before.journal| == c && Alike(exact, v, ViewsOf(before.state.colls))
  }

  ghost predicate InsideCreation(exact: bool, before: Trace, op: Op, c: nat, v: Views) {
    && op.Create?
    && |before.journal| < c < |before.journal| + 1 + |op.declared|
    && Alike(exact, v, ViewsOf(before.state.colls)[op.name :=
               View(before.state.nextId, [], op.config, [], InTurn(op.declared[..c - |before.journal| - 1]))])
  }

  lemma {:induction false} DeclarationsSize(id: nat, declared: seq<(string, IndexKind)>)
    ensures |Declarations(id, declared)| == |declared|
  {
    if declared != [] {
      DeclarationsSize(id, declared[..|declared| - 1]);
    }
  }

  lemma {:induction false} DeclarationsPrefix(id: nat, declared: seq<(string, IndexKind)>, j: nat)
    requires j <= |declared|
    ensures |Declarations(id, declared)| == |declared|
    ensures Declarations(id, declared)[..j] == Declarations(id, declared[..j])
  {
    DeclarationsSize(id, declared);
    if j < |declared| {
      DeclarationsPrefix(id, declared[..|declared| - 1], j);
      assert declared[..|declared| - 1][..j] == declared[..j];
    } else {
      assert declared[..j] == declared;
    }
  }

  lemma LoggedSize(env: Env, s: State, op: Op)
    ensures |Step(env, s, op).logged| <= 1 || op.Create?
    ensures op.Create? && Step(env, s, op).logged != [] ==>
      && CreateError(env, s, op.name, op.config).None?
      && Step(env, s, op).logged ==
        [Entry(s.nextId, CreateColl(op.name, [], op.config))] + Declarations(s.nextId, op.declared)
  {
  }

  /** The first entries of one creation. */
  lemma PartOfCreation(env: Env, s: State, op: Op, n: nat)
    requires Wf(s) && !Unbuildable(env, s, op) && op.Create? && 0 < n < |Step(env, s, op).logged|
    ensures |Step(env, s, op).logged| == 1 + |op.declared|
    ensures AppliedAll(env, ViewsOf(s.colls), Step(env, s, op).logged[..n]) ==
            Some(ViewsOf(s.colls)[op.name := View(s.nextId, [], op.config, [], InTurn(op.declared[..n - 1]))])
  {
    hide Slots.Valid;
    var logged := Step(env, s, op).logged;
    LoggedSize(env, s, op);
    DeclarationsSize(s.nextId, op.declared);
    DeclarationsPrefix(s.nextId, op.declared, n - 1);
    SameIds(s.colls);
    var create := Entry(s.nextId, CreateColl(op.name, [], op.config));
    assert logged[..n] == [create] + Declarations(s.nextId, op.declared[..n - 1]);
    CreationMeans(env, ViewsOf(s.colls), op.name, op.config, s.nextId, op.declared[..n - 1]);
  }

  /** What the first `c` entries of a run's journal mean. */
  lemma {:induction false} CutMeans(exact: bool, env: Env, s: State, ops: seq<Op>, c: nat)
    requires Wf(s) && SqrtLaw(env.sqrt) && (exact ==> AllRecoverable(ops)) && AllBuilt(env, s, ops)
    requires c <= |Ran(env, s, ops).journal|
    ensures var m := AppliedAll(env, ViewsOf(s.colls), Ran(env, s, ops).journal[..c]);
      m.Some? && CutView(exact, env, s, ops, c, m.value)
  {
    hide Slots.Valid;
    var journal := Ran(env, s, ops).journal;
    if c == |journal| {
      RunRefines(exact, env, s, ops);
      assert journal[..c] == journal && ops[..|ops|] == ops;
      assert BetweenSteps(exact, Upto(env, s, ops, |ops|), c, AppliedAll(env, ViewsOf(s.colls), journal[..c]).value);
    } else {
      var front, last := ops[..|ops| - 1], ops[|ops| - 1];
      var before := Ran(env, s, front);
      if c <= |before.journal| {
        CutMeans(exact, env, s, front, c);
        assert journal[..c] == before.journal[..c];
        CutWidens(exact, env, s, ops, c, AppliedAll(env, ViewsOf(s.colls), journal[..c]).value);
      } else {
        CutInCreation(exact, env, s, ops, c);
      }
    }
  }

  lemma FrontRecoverable(exact: bool, ops: seq<Op>)
    requires ops != [] && (exact ==> AllRecoverable(ops))
    ensures exact ==> AllRecoverable(ops[..|ops| - 1])
  {
  }

  /** The cut falls between the entries of the last operation. */
  lemma CutInCreation(exact: bool, env: Env, s: State, ops: seq<Op>, c: nat)
    requires Wf(s) && SqrtLaw(env.sqrt) && (exact ==> AllRecoverable(ops)) && ops != [] && AllBuilt(env, s, ops)
    requires |Ran(env, s, ops[..|ops| - 1]).journal| < c < |Ran(env, s, ops).journal|
    ensures var m := AppliedAll(env, ViewsOf(s.colls), Ran(env, s, ops).journal[..c]);
      m.Some? && CutView(exact, env, s, ops, c, m.value)
  {
    hide Slots.Valid, SqrtLaw, AllRecoverable, AppliedAll, Alike, Step, Wf;
    var front, last := ops[..|ops| - 1], ops[|ops| - 1];
    var before, journal := Ran(env, s, front), Ran(env, s, ops).journal;
    FrontRecoverable(exact, ops);
    var logged, n := Step(env, before.state, last).logged, c - |before.journal|;
    RunRefines(exact, env, s, front);
    LoggedSize(env, before.state, last);
    PartOfCreation(env, before.state, last, n);
    assert journal[..c] == before.journal + logged[..n];
    var inside := AppliedAll(env, ViewsOf(before.state.colls), logged[..n]).value;
    AlikeSelf(exact, inside);
    AppliedOnward(exact, env, ViewsOf(s.colls), before.journal, ViewsOf(before.state.colls), logged[..n], inside);
    assert InsideCreation(exact, Upto(env, s, ops, |front|), last, c,
                          AppliedAll(env, ViewsOf(s.colls), journal[..c]).value);
  }

  lemma CutWidens(exact: bool, env: Env, s: State, ops: seq<Op>, c: nat, v: Views)
    requires ops != [] && CutView(exact, env, s, ops[..|ops| - 1], c, v)
    ensures CutView(exact, env, s, ops, c, v)
  {
    var front := ops[..|ops| - 1];
    if k :| 0 <= k <= |front| && BetweenSteps(exact, Upto(env, s, front, k), c, v) {
      assert front[..k] == ops[..k];
      assert BetweenSteps(exact, Upto(env, s, ops, k), c, v);
    } else {
      var k :| 0 <= k < |front| && InsideCreation(exact, Upto(env, s, front, k), front[k], c, v);
      assert front[..k] == ops[..k];
      assert InsideCreation(exact, Upto(env, s, ops, k), ops[k], c, v);
    }
  }

  /** Crash recovery: whatever the run and wherever the journal is cut, also
      between the entries of one creation, reopening succeeds and shows the
      collections after the last journaled operation. */
  lemma CrashRecovery(exact: bool, env: Env, base: State, s: State, ops: seq<Op>, c: nat)
    requires Wf(s) && Checkpointed(base, s) && SqrtLaw(env.sqrt)
    requires (exact ==> AllRecoverable(ops)) && AllBuilt(env, s, ops)
    requires c <= |Ran(env, s, ops).journal|
    ensures var r := ReplayedAll(env, base, Ran(env, s, ops).journal[..c]);
      r.Success? && Keyed(r.value.colls) && CutView(exact, env, s, ops, c, ViewsOf(r.value.colls))
  {
    CutMeans(exact, env, s, ops, c);
    ReplayRefines(env, base, Ran(env, s, ops).journal[..c]);
  }

  // ----- when reopening fails -----------------------------------------------

  lemma UnbuildableFails(env: Env, base: State, s: State, op: Op)
    requires Wf(s) && Reopened(false, base, s) && Unbuildable(env, s, op)
    ensures ReplayedAll(env, base, Step(env, s, op).logged).Failure?
  {
    var create := Entry(s.nextId, CreateColl(op.name, [], op.config));
    AlikeIds(false, ViewsOf(base.colls), ViewsOf(s.colls));
    SameIds(s.colls);
    SameIds(base.colls);
    assert [create][..0] == [] && ReplayedAll(env, base, [create][..0]) == Success(base);
    assert ReplayedAll(env, base, [create]).Failure?;
    ReplayedJoin(env, base, [create], Declarations(s.nextId, op.declared));
  }

  /** The database reopens exactly when no creation of the run passed the name,
      dimension and provider checks with graph parameters out of bounds. */
  lemma {:induction false} ReopensIff(env: Env, base: State, s: State, ops: seq<Op>)
    requires Wf(s) && Checkpointed(base, s) && SqrtLaw(env.sqrt)
    ensures ReplayedAll(env, base, Ran(env, s, ops).journal).Success? <==> AllBuilt(env, s, ops)
  {
    if AllBuilt(env, s, ops) {
      WholeJournal(false, env, base, s, ops);
    } else {
      var front, last := ops[..|ops| - 1], ops[|ops| - 1];
      var before := Ran(env, s, front);
      ReopensIff(env, base, s, front);
      ReplayedJoin(env, base, before.journal, Step(env, before.state, last).logged);
      if AllBuilt(env, s, front) {
        WholeJournal(false, env, base, s, front);
        RunRefines(false, env, s, front);
        UnbuildableFails(env, ReplayedAll(env, base, before.journal).value, before.state, last);
      }
    }
  }

  /** A creation with out-of-range graph parameters is refused, yet the journal it
      leaves cannot be replayed. */
  lemma RefusedCreationExample(env: Env)
    ensures var op := Create("a", Config(1, Euclidean, 0, 0, 0, None), []);
      Step(env, EMPTY_STATE, op).answer.Failure? &&
        ReplayedAll(env, EMPTY_STATE, Ran(env, EMPTY_STATE, [op]).journal).Failure?
  {
    var op := Create("a", Config(1, Euclidean, 0, 0, 0, None), []);
    assert ByteLength("a") == 1;
    assert [op][..0] == [] && Ran(env, EMPTY_STATE, [op][..0]) == Trace(EMPTY_STATE, []);
    AlikeIs(ViewsOf(EMPTY_STATE.colls), ViewsOf(EMPTY_STATE.colls));
    UnbuildableFails(env, EMPTY_STATE, EMPTY_STATE, op);
    assert Ran(env, EMPTY_STATE, [op]).journal == Step(env, EMPTY_STATE, op).logged;
  }

  // ----- the ids of a journal -----------------------------------------------

  /** Ids in the journal have been given out. */
  ghost predicate AllBelow(es: seq<Entry>, limit: nat) {
    forall i :: 0 <= i < |es| ==> es[i].collId < limit
  }

  /** A collection is created before anything else is said about its id. */
  ghost predicate FreshIds(es: seq<Entry>) {
    forall i, j :: 0 <= i < j < |es| && es[j].body.CreateColl? ==> es[i].collId != es[j].collId
  }

  /** Entries about registered collections, or about one new collection. */
  ghost predicate WellNumbered(s: State, o: Outcome) {
    && AllBelow(o.logged, o.state.nextId) && s.nextId <= o.state.nextId && FreshIds(o.logged)
    && forall i :: 0 <= i < |o.logged| && o.logged[i].body.CreateColl? ==> o.logged[i].collId == s.nextId
  }

  lemma Registered(s: State, e: Entry, o: Outcome)
    requires Wf(s) && o.state.nextId == s.nextId && (o.logged == [] || o.logged == [e])
    requires !e.body.CreateColl? && exists n :: n in s.colls && s.colls[n].id == e.collId
    ensures WellNumbered(s, o)
  {
    hide Slots.Valid;
    var n :| n in s.colls && s.colls[n].id == e.collId;
    assert IdsOf(s.colls)[n] == e.collId;
  }

  lemma RegisteredId(s: State, id: nat)
    requires NameOf(IdsOf(s.colls), id).Some?
    ensures exists n :: n in s.colls && s.colls[n].id == id
  {
    var at := NameOf(IdsOf(s.colls), id);
    assert at.value in s.colls && s.colls[at.value].id == id;
  }

  lemma CreationNumbered(env: Env, s: State, name: string, config: Config, declared: seq<(string, IndexKind)>)
    ensures WellNumbered(s, Created(env, s, name, config, declared))
  {
    DeclarationsAbout(s.nextId, declared);
  }

  lemma LoggedIds(env: Env, s: State, op: Op)
    requires Wf(s)
    ensures WellNumbered(s, Step(env, s, op))
  {
    hide Slots.Valid;
    var o := Step(env, s, op);
    if op.Create? {
      CreationNumbered(env, s, op.name, op.config, op.declared);
    } else if o.logged != [] {
      LoggedAbout(env, s, op);
      Registered(s, o.logged[0], o);
    }
  }

  lemma LoggedAbout(env: Env, s: State, op: Op)
    requires !op.Create?
    ensures var o := Step(env, s, op);
      && o.state.nextId == s.nextId && |o.logged| <= 1
      && (o.logged != [] ==>
           !o.logged[0].body.CreateColl? && exists n :: n in s.colls && s.colls[n].id == o.logged[0].collId)
  {
    hide Slots.Valid;
    match op
    case Upsert(id, _, _) => UpsertAbout(env, s, id, op.batch, op.reserved);
    case Delete(id, _) => if NameOf(IdsOf(s.colls), id).Some? { RegisteredId(s, id); }
    case CreateIndex(id, _, _) => if NameOf(IdsOf(s.colls), id).Some? { RegisteredId(s, id); }
    case _ =>
  }

  lemma UpsertAbout(env: Env, s: State, id: nat, batch: seq<Point>, reserved: bool)
    ensures var o := PointsUpserted(env, s, id, batch, reserved);
      && o.state.nextId == s.nextId && |o.logged| <= 1
      && (o.logged != [] ==>
           !o.logged[0].body.CreateColl? && exists n :: n in s.colls && s.colls[n].id == o.logged[0].collId)
  {
    hide Slots.Valid;
    if NameOf(IdsOf(s.colls), id).Some? {
      RegisteredId(s, id);
    }
  }

  lemma {:induction false} DeclarationsAbout(id: nat, declared: seq<(string, IndexKind)>)
    ensures forall i :: 0 <= i < |Declarations(id, declared)| ==>
      Declarations(id, declared)[i].collId == id && Declarations(id, declared)[i].body.DeclareKey?
  {
    if declared != [] {
      DeclarationsAbout(id, declared[..|declared| - 1]);
    }
  }

  lemma {:induction false} JournalFresh(env: Env, s: State, ops: seq<Op>)
    requires Wf(s)
    ensures var t := Ran(env, s, ops); Wf(t.state) && FreshIds(t.journal) && AllBelow(t.journal, t.state.nextId)
  {
    if ops != [] {
      var before := Ran(env, s, ops[..|ops| - 1]);
      JournalFresh(env, s, ops[..|ops| - 1]);
      StepKeepsWf(env, before.state, ops[|ops| - 1]);
      LoggedIds(env, before.state, ops[|ops| - 1]);
    }
  }
}
