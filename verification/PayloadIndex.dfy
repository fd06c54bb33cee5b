/** Payload indexes (crates/veclite/src/filter/index.rs): posting sets of slots
    per indexed value, how writes keep them in step with the stored payloads,
    and exactly when the candidate set they produce may be trusted. */
module PayloadIndex {
  import opened Core
  import opened Filters
  import opened Numbers

  // ----- the data -----------------------------------------------------------

  /** A posting value, typed by the declared kind of its index. */
  datatype PostingKey = WordKey(s: string) | WholeKey(i: int) | FloatKey(f: F64)

  datatype KeyIndex = KeyIndex(kind: IndexKind, postings: map<PostingKey, set<nat>>) {
    function Posting(key: PostingKey): set<nat> {
      if key in postings then postings[key] else {}
    }

    function Add(key: Option<PostingKey>, slot: nat): KeyIndex {
      if key.None? then this
      else this.(postings := postings[key.value := Posting(key.value) + {slot}])
    }

    function Drop(key: Option<PostingKey>, slot: nat): KeyIndex {
      if key.None? || key.value !in postings then this
      else this.(postings := postings[key.value := postings[key.value] - {slot}])
    }
  }

  type Indexes = map<string, KeyIndex>

  /** The posting a stored value goes under: none when its type is not the index's. */
  function KeyOf(kind: IndexKind, v: Value): Option<PostingKey> {
    match kind
    case Keyword => if v.AsStr().Some? then Some(WordKey(v.AsStr().value)) else None
    case Integer => if v.AsI64().Some? then Some(WholeKey(v.AsI64().value)) else None
    case Floating => if v.AsF64().Some? then Some(FloatKey(v.AsF64().value)) else None
  }

  function CarriedKey(kind: IndexKind, name: string, payload: Option<Value>): Option<PostingKey> {
    var v := Lookup(payload, name);
    if v.None? then None else KeyOf(kind, v.value)
  }

  // ----- updates ------------------------------------------------------------

  function Inserted(ixs: Indexes, slot: nat, payload: Option<Value>): Indexes {
    map name | name in ixs :: ixs[name].Add(CarriedKey(ixs[name].kind, name, payload), slot)
  }

  function Removed(ixs: Indexes, slot: nat, payload: Option<Value>): Indexes {
    map name | name in ixs :: ixs[name].Drop(CarriedKey(ixs[name].kind, name, payload), slot)
  }

  /** Later declarations of a key replace earlier ones (map collection order). */
  function Fresh(declared: seq<(string, IndexKind)>): Indexes {
    if declared == [] then map[]
    else Fresh(declared[..|declared| - 1])[declared[|declared| - 1].0 := KeyIndex(declared[|declared| - 1].1, map[])]
  }

  function Declared(ixs: Indexes, name: string, kind: IndexKind): Indexes {
    if name in ixs then ixs else ixs[name := KeyIndex(kind, map[])]
  }

  function Kinds(ixs: Indexes): map<string, IndexKind> {
    map name | name in ixs :: ixs[name].kind
  }

  /** Empty indexes with the declarations of `ixs`. */
  function Emptied(ixs: Indexes): Indexes {
    map name | name in ixs :: KeyIndex(ixs[name].kind, map[])
  }

  /** Re-inserting the payloads of the first `n` slots. */
  function Backfilled(ixs: Indexes, payloads: seq<Option<Value>>, n: nat): Indexes
    requires n <= |payloads|
  {
    if n == 0 then ixs else Inserted(Backfilled(ixs, payloads, n - 1), n - 1, payloads[n - 1])
  }

  // ----- coherence ----------------------------------------------------------

  /** Each posting set is exactly the slots whose payload carries the value. */
  ghost predicate CoherentAt(ix: KeyIndex, name: string, payloads: seq<Option<Value>>) {
    forall key, slot: nat {:trigger slot in ix.Posting(key)} ::
      slot in ix.Posting(key) <==> slot < |payloads| && CarriedKey(ix.kind, name, payloads[slot]) == Some(key)
  }

  ghost predicate Coherent(ixs: Indexes, payloads: seq<Option<Value>>) {
    forall name :: name in ixs ==> CoherentAt(ixs[name], name, payloads)
  }

  lemma PostedSlot(ix: KeyIndex, name: string, payloads: seq<Option<Value>>, key: PostingKey, slot: nat)
    requires CoherentAt(ix, name, payloads)
    ensures slot in ix.Posting(key) <==> slot < |payloads| && CarriedKey(ix.kind, name, payloads[slot]) == Some(key)
  {
  }

  lemma EmptyCoherentAt(ix: KeyIndex, name: string)
    requires ix.postings == map[]
    ensures CoherentAt(ix, name, [])
  {
    forall key, slot: nat ensures slot !in ix.Posting(key) {
    }
  }

  lemma AddKeepsCoherence(ix: KeyIndex, name: string, payloads: seq<Option<Value>>, payload: Option<Value>)
    requires CoherentAt(ix, name, payloads)
    ensures CoherentAt(ix.Add(CarriedKey(ix.kind, name, payload), |payloads|), name, payloads + [payload])
  {
    var after, ps := ix.Add(CarriedKey(ix.kind, name, payload), |payloads|), payloads + [payload];
    forall key, slot: nat
      ensures slot in after.Posting(key) <==> slot < |ps| && CarriedKey(after.kind, name, ps[slot]) == Some(key)
    {
      assert slot in ix.Posting(key) <==> slot < |payloads| && CarriedKey(ix.kind, name, payloads[slot]) == Some(key);
    }
  }

  lemma InsertKeepsCoherence(ixs: Indexes, payloads: seq<Option<Value>>, payload: Option<Value>)
    requires Coherent(ixs, payloads)
    ensures Coherent(Inserted(ixs, |payloads|, payload), payloads + [payload])
  {
    forall name | name in ixs
      ensures CoherentAt(Inserted(ixs, |payloads|, payload)[name], name, payloads + [payload])
    {
      AddKeepsCoherence(ixs[name], name, payloads, payload);
    }
  }

  lemma RemoveKeepsCoherence(ixs: Indexes, payloads: seq<Option<Value>>, slot: nat)
    requires Coherent(ixs, payloads) && slot < |payloads|
    ensures Coherent(Removed(ixs, slot, payloads[slot]), payloads[slot := None])
  {
    var after, ps := Removed(ixs, slot, payloads[slot]), payloads[slot := None];
    forall name, key, s: nat | name in ixs
      ensures s in after[name].Posting(key) <==> s < |ps| && CarriedKey(after[name].kind, name, ps[s]) == Some(key)
    {
      assert CoherentAt(ixs[name], name, payloads);
      assert s in ixs[name].Posting(key) <==>
        s < |payloads| && CarriedKey(ixs[name].kind, name, payloads[s]) == Some(key);
    }
  }

  /** One index under backfill. */
  function Filled(ix: KeyIndex, name: string, payloads: seq<Option<Value>>, n: nat): (r: KeyIndex)
    requires n <= |payloads|
    ensures r.kind == ix.kind
  {
    if n == 0 then ix
    else Filled(ix, name, payloads, n - 1).Add(CarriedKey(ix.kind, name, payloads[n - 1]), n - 1)
  }

  lemma {:induction false} BackfillPointwise(ixs: Indexes, payloads: seq<Option<Value>>, n: nat)
    requires n <= |payloads|
    ensures Backfilled(ixs, payloads, n).Keys == ixs.Keys
    ensures forall name :: name in ixs ==> Backfilled(ixs, payloads, n)[name] == Filled(ixs[name], name, payloads, n)
  {
    if n > 0 {
      BackfillPointwise(ixs, payloads, n - 1);
    }
  }

  /** Re-inserting what is already posted changes nothing. */
  lemma {:induction false} FilledKeeps(ix: KeyIndex, name: string, payloads: seq<Option<Value>>, n: nat)
    requires n <= |payloads| && CoherentAt(ix, name, payloads)
    ensures Filled(ix, name, payloads, n) == ix
  {
    if n > 0 {
      FilledKeeps(ix, name, payloads, n - 1);
      var key := CarriedKey(ix.kind, name, payloads[n - 1]);
      if key.Some? {
        assert n - 1 in ix.Posting(key.value);
        assert ix.Posting(key.value) + {n - 1} == ix.Posting(key.value);
      }
    }
  }

  lemma {:induction false} FilledFills(ix: KeyIndex, name: string, payloads: seq<Option<Value>>, n: nat)
    requires n <= |payloads| && ix.postings == map[]
    ensures CoherentAt(Filled(ix, name, payloads, n), name, payloads[..n])
  {
    if n == 0 {
      EmptyCoherentAt(ix, name);
      assert payloads[..0] == [];
    } else {
      FilledFills(ix, name, payloads, n - 1);
      AddKeepsCoherence(Filled(ix, name, payloads, n - 1), name, payloads[..n - 1], payloads[n - 1]);
      assert payloads[..n] == payloads[..n - 1] + [payloads[n - 1]];
    }
  }

  lemma DeclareBackfillCoherent(ixs: Indexes, name: string, kind: IndexKind, payloads: seq<Option<Value>>)
    requires Coherent(ixs, payloads) && name !in ixs
    ensures Coherent(Backfilled(Declared(ixs, name, kind), payloads, |payloads|), payloads)
  {
    var start := Declared(ixs, name, kind);
    BackfillPointwise(start, payloads, |payloads|);
    forall n | n in start
      ensures CoherentAt(Filled(start[n], n, payloads, |payloads|), n, payloads)
    {
      FilledCoherent(start[n], n, payloads);
    }
  }

  lemma DeclareBackfillKinds(ixs: Indexes, name: string, kind: IndexKind, payloads: seq<Option<Value>>)
    requires name !in ixs
    ensures Kinds(Backfilled(Declared(ixs, name, kind), payloads, |payloads|)) == Kinds(ixs)[name := kind]
  {
    var start := Declared(ixs, name, kind);
    BackfillPointwise(start, payloads, |payloads|);
    assert Kinds(Backfilled(start, payloads, |payloads|)) == Kinds(start);
  }

  lemma FilledCoherent(ix: KeyIndex, name: string, payloads: seq<Option<Value>>)
    requires ix.postings == map[] || CoherentAt(ix, name, payloads)
    ensures CoherentAt(Filled(ix, name, payloads, |payloads|), name, payloads)
  {
    assert payloads[..|payloads|] == payloads;
    if ix.postings == map[] {
      FilledFills(ix, name, payloads, |payloads|);
    } else {
      FilledKeeps(ix, name, payloads, |payloads|);
    }
  }

  lemma EmptyCoherent(ixs: Indexes)
    requires forall name :: name in ixs ==> ixs[name].postings == map[]
    ensures Coherent(ixs, [])
  {
    forall name | name in ixs ensures CoherentAt(ixs[name], name, []) {
      EmptyCoherentAt(ixs[name], name);
    }
  }

  // ----- candidates ---------------------------------------------------------

  /** The posting key one match value selects in an index of a kind. */
  function EqKey(kind: IndexKind, value: MatchValue): Option<PostingKey> {
    match (kind, value)
    case (Keyword, Word(s)) => Some(WordKey(s))
    case (Integer, Whole(i)) => Some(WholeKey(i))
    case (Floating, Whole(i)) => Some(FloatKey(Num(ToF64(i))))
    case _ => None
  }

  function KeyReal(key: PostingKey): Option<real> {
    match key
    case WholeKey(i) => Some(ToF64(i))
    case FloatKey(f) => Some(f.Real())
    case WordKey(_) => None
  }

  /** Whether an index of this kind can answer the condition at all. */
  predicate Answerable(ixs: Indexes, cond: Condition) {
    && !cond.Nested?
    && cond.key in ixs
    && !(cond.InRange? && ixs[cond.key].kind == Keyword)
  }

  predicate KeyHit(kind: IndexKind, cond: Condition, key: PostingKey)
    requires !cond.Nested?
  {
    match cond
    case Eq(_, value) => EqKey(kind, value) == Some(key)
    case In(_, values) => exists i :: 0 <= i < |values| && EqKey(kind, values[i]) == Some(key)
    case InRange(_, range) => KeyReal(key).Some? && range.Contains(KeyReal(key).value)
    case Exists(_) => true
  }

  /** The slots of every posting the condition selects. */
  function Selected(ix: KeyIndex, cond: Condition): (r: set<nat>)
    requires !cond.Nested?
    ensures forall slot :: slot in r <==>
      exists key :: key in ix.postings && KeyHit(ix.kind, cond, key) && slot in ix.postings[key]
  {
    set key, slot | key in ix.postings && KeyHit(ix.kind, cond, key) && slot in ix.postings[key] :: slot
  }

  function AnswerOf(ixs: Indexes, cond: Condition): Option<set<nat>> {
    if Answerable(ixs, cond) then Some(Selected(ixs[cond.key], cond)) else None
  }

  function Meet(acc: Option<set<nat>>, next: Option<set<nat>>): Option<set<nat>> {
    if next.None? then acc else if acc.None? then next else Some(acc.value * next.value)
  }

  function CandidatesOf(ixs: Indexes, must: seq<Condition>): Option<set<nat>> {
    if must == [] then None
    else Meet(CandidatesOf(ixs, must[..|must| - 1]), AnswerOf(ixs, must[|must| - 1]))
  }

  /** A stored value has the type its index was declared for; an integer under an
      integer index has an `f64` of its own, and a float is not `-0.0`. */
  predicate Conforms(kind: IndexKind, v: Value) {
    match kind
    case Keyword => v.Str?
    case Integer => v.Int? && I64_MIN <= v.i <= I64_MAX && OwnF64(v.i)
    case Floating => v.Int? || (v.Float? && v.f != NegZero)
  }

  ghost predicate AllConform(ixs: Indexes, payloads: seq<Option<Value>>) {
    forall name, slot: nat :: name in ixs && slot < |payloads| && Lookup(payloads[slot], name).Some? ==>
      Conforms(ixs[name].kind, Lookup(payloads[slot], name).value)
  }

  /** What an index answers about a stored value. */
  predicate ValueHit(kind: IndexKind, cond: Condition, v: Value)
    requires !cond.Nested?
  {
    KeyOf(kind, v).Some? && KeyHit(kind, cond, KeyOf(kind, v).value)
  }

  /** With coherent postings the answer is decided by the stored values alone. */
  lemma SelectedExact(ixs: Indexes, payloads: seq<Option<Value>>, cond: Condition, slot: nat)
    requires Coherent(ixs, payloads) && Answerable(ixs, cond)
    ensures slot in Selected(ixs[cond.key], cond) <==>
            slot < |payloads| && Lookup(payloads[slot], cond.key).Some?
            && ValueHit(ixs[cond.key].kind, cond, Lookup(payloads[slot], cond.key).value)
  {
    var ix := ixs[cond.key];
    assert CoherentAt(ix, cond.key, payloads);
    if slot < |payloads| && CarriedKey(ix.kind, cond.key, payloads[slot]).Some? {
      var key := CarriedKey(ix.kind, cond.key, payloads[slot]).value;
      assert slot in ix.Posting(key);
    }
    forall key | key in ix.postings && slot in ix.postings[key]
      ensures slot < |payloads| && CarriedKey(ix.kind, cond.key, payloads[slot]) == Some(key)
    {
      PostedSlot(ix, cond.key, payloads, key, slot);
    }
  }

  /** A match value that equals a conforming value selects its posting. */
  lemma MatchedKey(kind: IndexKind, value: MatchValue, v: Value)
    requires Conforms(kind, v) && value.MatchesStored(v)
    ensures EqKey(kind, value) == KeyOf(kind, v)
  {
    if kind == Integer {
      AloneIff(v.i);
    }
  }

  /** An answerable condition never misses a conforming value it matches. */
  lemma ConformingValueIsHit(kind: IndexKind, cond: Condition, v: Value, payload: Option<Value>)
    requires !cond.Nested? && !(cond.InRange? && kind == Keyword)
    requires Lookup(payload, cond.key) == Some(v)
    requires Conforms(kind, v) && cond.Matches(payload)
    ensures ValueHit(kind, cond, v)
  {
    match cond
    case In(_, values) =>
      var i :| 0 <= i < |values| && values[i].MatchesStored(v);
      MatchedKey(kind, values[i], v);
    case Eq(_, value) => MatchedKey(kind, value, v);
    case _ =>
  }

  /** A condition that matches a non-conforming value and that the index misses. */
  ghost function MissingCondition(kind: IndexKind, key: string, v: Value): Condition {
    if kind == Floating && v == Float(NegZero) then Eq(key, Whole(0))
    else if kind == Integer && v.Int? && exists twin: I64 :: twin != v.i && ToF64(twin) == ToF64(v.i) then
      var twin: I64 :| twin != v.i && ToF64(twin) == ToF64(v.i);
      Eq(key, Whole(twin))
    else Exists(key)
  }

  lemma NonConformingValueIsMissed(kind: IndexKind, v: Value, key: string, payload: Option<Value>)
    requires Lookup(payload, key) == Some(v) && !Conforms(kind, v)
    ensures MissingCondition(kind, key, v).Matches(payload)
    ensures !ValueHit(kind, MissingCondition(kind, key, v), v)
  {
    if kind == Integer && v.Int? && I64_MIN <= v.i <= I64_MAX {
      var twin: I64 := TwinOf(v.i);
    }
  }

  lemma {:induction false} CandidatesMember(ixs: Indexes, must: seq<Condition>, slot: nat)
    ensures CandidatesOf(ixs, must).None? <==> forall i :: 0 <= i < |must| ==> !Answerable(ixs, must[i])
    ensures CandidatesOf(ixs, must).Some? ==>
              (slot in CandidatesOf(ixs, must).value <==>
               forall i :: 0 <= i < |must| && Answerable(ixs, must[i]) ==> slot in Selected(ixs[must[i].key], must[i]))
  {
    if must != [] {
      var last := |must| - 1;
      CandidatesMember(ixs, must[..last], slot);
      assert forall i :: 0 <= i < last ==> must[..last][i] == must[i];
    }
  }

  ghost predicate CandidatesCover(ixs: Indexes, payloads: seq<Option<Value>>, f: Filter) {
    var c := CandidatesOf(ixs, f.must);
    c.None? || forall slot: nat :: slot < |payloads| && f.Matches(payloads[slot]) ==> slot in c.value
  }

  /** Conforming payloads make the candidate set a superset of the matches. */
  lemma ConformingIsCovered(ixs: Indexes, payloads: seq<Option<Value>>, f: Filter)
    requires Coherent(ixs, payloads) && AllConform(ixs, payloads)
    ensures CandidatesCover(ixs, payloads, f)
  {
    forall slot: nat | CandidatesOf(ixs, f.must).Some? && slot < |payloads| && f.Matches(payloads[slot])
      ensures slot in CandidatesOf(ixs, f.must).value
    {
      CandidatesMember(ixs, f.must, slot);
      forall i | 0 <= i < |f.must| && Answerable(ixs, f.must[i])
        ensures slot in Selected(ixs[f.must[i].key], f.must[i])
      {
        var cond := f.must[i];
        assert cond.Matches(payloads[slot]);
        SelectedExact(ixs, payloads, cond, slot);
        ConformingValueIsHit(ixs[cond.key].kind, cond, Lookup(payloads[slot], cond.key).value, payloads[slot]);
      }
    }
  }

  /** An index holds the key and can answer such a condition. */
  ghost predicate HasIndex(ixs: Indexes, cond: Condition) {
    !cond.Nested? && cond.key in ixs && (cond.InRange? ==> ixs[cond.key].kind != Keyword)
  }

  /** What an index finds the condition matches. */
  lemma HitIsMatch(kind: IndexKind, cond: Condition, v: Value, payload: Option<Value>)
    requires !cond.Nested? && Lookup(payload, cond.key) == Some(v) && ValueHit(kind, cond, v)
    ensures cond.Matches(payload)
  {
    match cond
    case Eq(_, value) => KeyIsMatch(kind, value, v);
    case In(_, values) =>
      var i :| 0 <= i < |values| && EqKey(kind, values[i]) == KeyOf(kind, v);
      KeyIsMatch(kind, values[i], v);
    case _ =>
  }

  lemma KeyIsMatch(kind: IndexKind, value: MatchValue, v: Value)
    requires EqKey(kind, value).Some? && EqKey(kind, value) == KeyOf(kind, v)
    ensures value.MatchesStored(v)
  {
  }

  /** There are candidates exactly when some `must` condition has an index, and a slot is
      one of them only if its payload matches all of those; where stored values conform,
      exactly then. */
  lemma CandidatesExact(ixs: Indexes, payloads: seq<Option<Value>>, must: seq<Condition>, slot: nat)
    requires Coherent(ixs, payloads)
    ensures var c := CandidatesOf(ixs, must);
      && (c.Some? <==> exists i :: 0 <= i < |must| && HasIndex(ixs, must[i]))
      && (c.Some? && slot in c.value ==>
            && slot < |payloads|
            && forall i :: 0 <= i < |must| && HasIndex(ixs, must[i]) ==> must[i].Matches(payloads[slot]))
      && (c.Some? && AllConform(ixs, payloads) && slot < |payloads|
            && (forall i :: 0 <= i < |must| && HasIndex(ixs, must[i]) ==> must[i].Matches(payloads[slot])) ==>
            slot in c.value)
  {
    CandidatesMember(ixs, must, slot);
    assert forall i :: 0 <= i < |must| ==> (Answerable(ixs, must[i]) <==> HasIndex(ixs, must[i]));
    forall i | 0 <= i < |must| && HasIndex(ixs, must[i])
      ensures slot in Selected(ixs[must[i].key], must[i]) ==> slot < |payloads| && must[i].Matches(payloads[slot])
      ensures AllConform(ixs, payloads) && slot < |payloads| && must[i].Matches(payloads[slot]) ==>
        slot in Selected(ixs[must[i].key], must[i])
    {
      OneSelected(ixs, payloads, must[i], slot);
    }
    hide Selected, Coherent, AllConform, Answerable, HasIndex;
  }

  lemma OneSelected(ixs: Indexes, payloads: seq<Option<Value>>, cond: Condition, slot: nat)
    requires Coherent(ixs, payloads) && HasIndex(ixs, cond)
    ensures slot in Selected(ixs[cond.key], cond) ==> slot < |payloads| && cond.Matches(payloads[slot])
    ensures AllConform(ixs, payloads) && slot < |payloads| && cond.Matches(payloads[slot]) ==>
      slot in Selected(ixs[cond.key], cond)
  {
    SelectedExact(ixs, payloads, cond, slot);
    var kind := ixs[cond.key].kind;
    if slot < |payloads| && Lookup(payloads[slot], cond.key).Some? {
      var v := Lookup(payloads[slot], cond.key).value;
      if ValueHit(kind, cond, v) {
        HitIsMatch(kind, cond, v, payloads[slot]);
      } else if AllConform(ixs, payloads) && cond.Matches(payloads[slot]) {
        ConformingValueIsHit(kind, cond, v, payloads[slot]);
      }
    }
  }

  /** The documented claim "candidates is a superset" holds for every filter
      exactly when every stored value under an indexed key conforms. */
  lemma SupersetIffConforming(ixs: Indexes, payloads: seq<Option<Value>>)
    requires Coherent(ixs, payloads)
    ensures (forall f: Filter :: CandidatesCover(ixs, payloads, f)) <==> AllConform(ixs, payloads)
  {
    if AllConform(ixs, payloads) {
      forall f: Filter ensures CandidatesCover(ixs, payloads, f) {
        ConformingIsCovered(ixs, payloads, f);
      }
    } else {
      var name, slot: nat :| name in ixs && slot < |payloads| && Lookup(payloads[slot], name).Some?
        && !Conforms(ixs[name].kind, Lookup(payloads[slot], name).value);
      var v := Lookup(payloads[slot], name).value;
      var cond := MissingCondition(ixs[name].kind, name, v);
      var f := Filter([cond], [], []);
      NonConformingValueIsMissed(ixs[name].kind, v, name, payloads[slot]);
      SelectedExact(ixs, payloads, cond, slot);
      assert f.must[0] == cond && f.Matches(payloads[slot]);
      CandidatesMember(ixs, f.must, slot);
      assert !CandidatesCover(ixs, payloads, f);
    }
  }

  /** Two integers with one `f64`: the filter for the one matches the other, which
      an integer index holds under its own value only. */
  lemma IntegerIndexMissesTwin()
    ensures var stored, sought := 0x20_0000_0000_0001, 0x20_0000_0000_0000;
            && Eq("n", Whole(sought)).Matches(Some(Object(map["n" := Int(stored)])))
            && !ValueHit(Integer, Eq("n", Whole(sought)), Int(stored))
  {
    RoundedByTwo(0x20_0000_0000_0001);
    RoundedByTwo(0x20_0000_0000_0000);
  }

  /** The documentation's own example: the stored `2024.0` matches `2024`, but an
      integer index does not hold it. */
  lemma IntegerIndexMissesFloat()
    ensures var payload := Some(Object(map["year" := Float(Num(2024.0))]));
            var ixs := Inserted(Fresh([("year", Integer)]), 0, payload);
            var f := Filter([Eq("year", Whole(2024))], [], []);
            && Coherent(ixs, [payload]) && f.Matches(payload)
            && CandidatesOf(ixs, f.must) == Some({})
  {
    var payload := Some(Object(map["year" := Float(Num(2024.0))]));
    var none: Indexes := map[];
    assert Fresh([("year", Integer)][..0]) == none;
    var start := Fresh([("year", Integer)]);
    assert start == map["year" := KeyIndex(Integer, map[])];
    var cond := Eq("year", Whole(2024));
    var f := Filter([cond], [], []);
    InsertKeepsCoherence(start, [], payload);
    var ixs := Inserted(start, 0, payload);
    assert [payload] == [] + [payload];
    assert cond.Matches(payload);
    assert f.must[0] == cond;
    assert f.must[..0] == [];
    assert CandidatesOf(ixs, f.must) == AnswerOf(ixs, cond);
    assert ixs == start;
    assert Selected(ixs["year"], cond) == {};
  }

  // ----- the mutable object -------------------------------------------------

  class PayloadIndexes {
    var byKey: Indexes

    constructor (declared: seq<(string, IndexKind)>)
      ensures byKey == Fresh(declared)
    {
      byKey := Fresh(declared);
    }

    /** Rebuild hook of compaction: same declarations, no postings. */
    constructor Rebuilt(previous: PayloadIndexes)
      ensures byKey == Emptied(previous.byKey)
    {
      byKey := Emptied(previous.byKey);
    }

    method Declare(name: string, kind: IndexKind) returns (added: bool)
      modifies this
      ensures added <==> name !in old(byKey)
      ensures byKey == Declared(old(byKey), name, kind)
    {
      if name in byKey {
        return false;
      }
      byKey := byKey[name := KeyIndex(kind, map[])];
      return true;
    }

    method KindOf(name: string) returns (kind: Option<IndexKind>)
      ensures kind == if name in byKey then Some(byKey[name].kind) else None
    {
      kind := if name in byKey then Some(byKey[name].kind) else None;
    }

    method Insert(slot: nat, payload: Option<Value>)
      modifies this
      ensures byKey == Inserted(old(byKey), slot, payload)
    {
      ghost var before := byKey;
      var todo := byKey.Keys;
      while todo != {}
        invariant todo <= byKey.Keys == before.Keys
        invariant forall name :: name in byKey ==>
          byKey[name] == if name in todo then before[name] else Inserted(before, slot, payload)[name]
        decreases |todo|
      {
        var name :| name in todo;
        todo := todo - {name};
        byKey := byKey[name := byKey[name].Add(CarriedKey(byKey[name].kind, name, payload), slot)];
      }
    }

    method Remove(slot: nat, payload: Option<Value>)
      modifies this
      ensures byKey == Removed(old(byKey), slot, payload)
    {
      ghost var before := byKey;
      var todo := byKey.Keys;
      while todo != {}
        invariant todo <= byKey.Keys == before.Keys
        invariant forall name :: name in byKey ==>
          byKey[name] == if name in todo then before[name] else Removed(before, slot, payload)[name]
        decreases |todo|
      {
        var name :| name in todo;
        todo := todo - {name};
        byKey := byKey[name := byKey[name].Drop(CarriedKey(byKey[name].kind, name, payload), slot)];
      }
    }

    /** The union of the postings whose key the condition selects. */
    method Gather(ix: KeyIndex, cond: Condition) returns (out: set<nat>)
      requires !cond.Nested?
      ensures out == Selected(ix, cond)
    {
      out := {};
      var todo := ix.postings.Keys;
      while todo != {}
        invariant todo <= ix.postings.Keys
        invariant forall slot :: slot in out <==>
          exists key :: key in ix.postings && key !in todo && KeyHit(ix.kind, cond, key) && slot in ix.postings[key]
        decreases |todo|
      {
        var key :| key in todo;
        todo := todo - {key};
        if KeyHit(ix.kind, cond, key) {
          out := out + ix.postings[key];
        }
      }
    }

    method Answer(cond: Condition) returns (out: Option<set<nat>>)
      ensures out == AnswerOf(byKey, cond)
    {
      if cond.Nested? || cond.key !in byKey || (cond.InRange? && byKey[cond.key].kind == Keyword) {
        return None;
      }
      var slots := Gather(byKey[cond.key], cond);
      return Some(slots);
    }

    method Candidates(f: Filter) returns (acc: Option<set<nat>>)
      ensures acc == CandidatesOf(byKey, f.must)
    {
      acc := None;
      for i := 0 to |f.must|
        invariant acc == CandidatesOf(byKey, f.must[..i])
      {
        var next := Answer(f.must[i]);
        assert f.must[..i + 1][..i] == f.must[..i];
        acc := Meet(acc, next);
      }
      assert f.must[..|f.must|] == f.must;
    }
  }
}
