/** The sparse lanes of a sealed collection (crates/veclite/src/persist/seal.rs):
    inverted into postings when written, inverted back when read. */
module Postings {
  import opened Core
  import opened Sparse

  type Lane = Option<SparseVector>

  /** Pairs of slot and weight, in slot order. */
  type Posting = seq<(nat, real)>

  ghost predicate Sorted(lane: Lane) {
    lane.Some? ==> |lane.value.indices| == |lane.value.values| && StrictlyIncreasing(lane.value.indices)
  }

  ghost predicate AllSorted(lanes: seq<Lane>) {
    forall s :: 0 <= s < |lanes| ==> Sorted(lanes[s])
  }

  // ----- one lane, term by term ---------------------------------------------

  /** How many leading indices lie below a term. */
  function CountBelow(indices: seq<nat>, t: nat): (n: nat)
    ensures n <= |indices|
  {
    if indices == [] then 0
    else if indices[|indices| - 1] < t then |indices|
    else CountBelow(indices[..|indices| - 1], t)
  }

  lemma {:induction false} CountSplits(indices: seq<nat>, t: nat)
    requires StrictlyIncreasing(indices)
    ensures forall i :: 0 <= i < CountBelow(indices, t) ==> indices[i] < t
    ensures forall i :: CountBelow(indices, t) <= i < |indices| ==> t <= indices[i]
  {
    if indices != [] && indices[|indices| - 1] >= t {
      CountSplits(indices[..|indices| - 1], t);
    }
  }

  lemma CountIs(indices: seq<nat>, t: nat, n: nat)
    requires StrictlyIncreasing(indices) && n <= |indices|
    requires (forall i :: 0 <= i < n ==> indices[i] < t) && (n < |indices| ==> t <= indices[n])
    ensures CountBelow(indices, t) == n
  {
    CountSplits(indices, t);
  }

  /** The part of a lane below a term; an empty part is no lane. */
  function Upto(lane: Lane, t: nat): Lane
    requires Sorted(lane)
  {
    if lane.None? then None
    else
      var n := CountBelow(lane.value.indices, t);
      if n == 0 then None else Some(SparseVector(lane.value.indices[..n], lane.value.values[..n]))
  }

  function Found(lane: Lane, t: nat): Option<real>
    requires Sorted(lane)
  {
    if lane.None? then None
    else
      var n := CountBelow(lane.value.indices, t);
      if n < |lane.value.indices| && lane.value.indices[n] == t then Some(lane.value.values[n]) else None
  }

  function Pushed(lane: Lane, t: nat, w: real): Lane {
    if lane.None? then Some(SparseVector([t], [w]))
    else Some(SparseVector(lane.value.indices + [t], lane.value.values + [w]))
  }

  lemma UptoStep(lane: Lane, t: nat)
    requires Sorted(lane)
    ensures Upto(lane, t + 1) == if Found(lane, t).Some? then Pushed(Upto(lane, t), t, Found(lane, t).value)
      else Upto(lane, t)
  {
    if lane.Some? {
      var ix := lane.value.indices;
      var n := CountBelow(ix, t);
      CountSplits(ix, t);
      if n < |ix| && ix[n] == t {
        CountIs(ix, t + 1, n + 1);
        assert ix[..n + 1] == ix[..n] + [t];
        assert lane.value.values[..n + 1] == lane.value.values[..n] + [lane.value.values[n]];
        if n == 0 {
          assert ix[..1] == [t] && lane.value.values[..1] == [lane.value.values[0]];
        }
      } else {
        CountIs(ix, t + 1, n);
      }
    }
  }

  lemma UptoGap(lane: Lane, a: nat, b: nat)
    requires Sorted(lane) && a <= b
    requires lane.Some? ==> forall i :: 0 <= i < |lane.value.indices| ==> !(a <= lane.value.indices[i] < b)
    ensures Upto(lane, a) == Upto(lane, b)
  {
    if lane.Some? {
      CountSplits(lane.value.indices, a);
      CountIs(lane.value.indices, b, CountBelow(lane.value.indices, a));
    }
  }

  /** What comes back: a lane without entries comes back as no lane. */
  function Normal(lane: Lane): Lane {
    if lane.Some? && lane.value.indices == [] then None else lane
  }

  lemma UptoAll(lane: Lane, t: nat)
    requires Sorted(lane) && (lane.Some? ==> forall i :: 0 <= i < |lane.value.indices| ==> lane.value.indices[i] < t)
    ensures Upto(lane, t) == Normal(lane)
  {
    if lane.Some? {
      CountIs(lane.value.indices, t, |lane.value.indices|);
      assert lane.value.indices[..|lane.value.indices|] == lane.value.indices;
      assert lane.value.values[..|lane.value.values|] == lane.value.values;
    }
  }

  // ----- postings -----------------------------------------------------------

  function PostingOf(lanes: seq<Lane>, t: nat, n: nat): Posting
    requires AllSorted(lanes) && n <= |lanes|
  {
    if n == 0 then []
    else
      var found := Found(lanes[n - 1], t);
      PostingOf(lanes, t, n - 1) + if found.Some? then [(n - 1, found.value)] else []
  }

  /** The entry of one slot while its first `k` indices are filed. */
  function Filed(lane: Lane, slot: nat, k: nat, t: nat): Posting
    requires Sorted(lane) && lane.Some? && k <= |lane.value.indices|
  {
    var n := CountBelow(lane.value.indices, t);
    if n < k && lane.value.indices[n] == t then [(slot, lane.value.values[n])] else []
  }

  function GetPosting(m: map<nat, Posting>, t: nat): Posting {
    if t in m then m[t] else []
  }

  /** A map without empty postings. */
  ghost predicate Inverts(m: map<nat, Posting>, lanes: seq<Lane>, n: nat)
    requires AllSorted(lanes) && n <= |lanes|
  {
    forall t: nat :: GetPosting(m, t) == PostingOf(lanes, t, n) && (t in m ==> m[t] != [])
  }

  ghost predicate Inverting(m: map<nat, Posting>, lanes: seq<Lane>, slot: nat, k: nat)
    requires AllSorted(lanes) && slot < |lanes| && lanes[slot].Some? && k <= |lanes[slot].value.indices|
  {
    forall t: nat :: GetPosting(m, t) == PostingOf(lanes, t, slot) + Filed(lanes[slot], slot, k, t) &&
      (t in m ==> m[t] != [])
  }

  lemma FileOne(m: map<nat, Posting>, lanes: seq<Lane>, slot: nat, k: nat)
    requires AllSorted(lanes) && slot < |lanes| && lanes[slot].Some? && k < |lanes[slot].value.indices|
    requires Inverting(m, lanes, slot, k)
    ensures var sv := lanes[slot].value;
      Inverting(m[sv.indices[k] := GetPosting(m, sv.indices[k]) + [(slot, sv.values[k])]], lanes, slot, k + 1)
  {
    var sv := lanes[slot].value;
    var next := m[sv.indices[k] := GetPosting(m, sv.indices[k]) + [(slot, sv.values[k])]];
    forall t: nat
      ensures GetPosting(next, t) == PostingOf(lanes, t, slot) + Filed(lanes[slot], slot, k + 1, t) &&
        (t in next ==> next[t] != [])
    {
      assert GetPosting(m, t) == PostingOf(lanes, t, slot) + Filed(lanes[slot], slot, k, t) && (t in m ==> m[t] != []);
      if t == sv.indices[k] {
        CountIs(sv.indices, t, k);
      }
    }
  }

  lemma LaneFiled(m: map<nat, Posting>, lanes: seq<Lane>, slot: nat)
    requires AllSorted(lanes) && slot < |lanes| && lanes[slot].Some?
    ensures Inverts(m, lanes, slot) <==> Inverting(m, lanes, slot, 0)
    ensures Inverting(m, lanes, slot, |lanes[slot].value.indices|) ==> Inverts(m, lanes, slot + 1)
  {
    forall t: nat ensures PostingOf(lanes, t, slot) + Filed(lanes[slot], slot, 0, t) == PostingOf(lanes, t, slot) {
    }
    forall t: nat
      ensures PostingOf(lanes, t, slot + 1) ==
        PostingOf(lanes, t, slot) + Filed(lanes[slot], slot, |lanes[slot].value.indices|, t)
    {
    }
    if Inverts(m, lanes, slot) {
      forall t: nat
        ensures GetPosting(m, t) == PostingOf(lanes, t, slot) + Filed(lanes[slot], slot, 0, t)
        ensures t in m ==> m[t] != []
      {
      }
    }
    if Inverting(m, lanes, slot, 0) {
      forall t: nat ensures GetPosting(m, t) == PostingOf(lanes, t, slot) && (t in m ==> m[t] != []) {
        assert GetPosting(m, t) == PostingOf(lanes, t, slot) + Filed(lanes[slot], slot, 0, t);
      }
    }
  }

  lemma NoLane(m: map<nat, Posting>, lanes: seq<Lane>, slot: nat)
    requires AllSorted(lanes) && slot < |lanes| && lanes[slot].None? && Inverts(m, lanes, slot)
    ensures Inverts(m, lanes, slot + 1)
  {
    forall t: nat ensures PostingOf(lanes, t, slot + 1) == PostingOf(lanes, t, slot) {
    }
  }

  /** File the entries of one slot under their terms. */
  method FileLane(before: map<nat, Posting>, lanes: seq<Lane>, slot: nat) returns (m: map<nat, Posting>)
    requires AllSorted(lanes) && slot < |lanes| && Inverts(before, lanes, slot)
    ensures Inverts(m, lanes, slot + 1)
  {
    m := before;
    if lanes[slot].None? {
      NoLane(m, lanes, slot);
      return;
    }
    var sv := lanes[slot].value;
    LaneFiled(m, lanes, slot);
    for k := 0 to |sv.indices|
      invariant Inverting(m, lanes, slot, k)
    {
      FileOne(m, lanes, slot, k);
      m := m[sv.indices[k] := GetPosting(m, sv.indices[k]) + [(slot, sv.values[k])]];
    }
    LaneFiled(m, lanes, slot);
  }

  lemma NothingFiled(lanes: seq<Lane>)
    requires AllSorted(lanes)
    ensures Inverts(map[], lanes, 0)
  {
  }

  /** Invert the lanes of all slots. */
  method SparseToPostings(lanes: seq<Lane>) returns (m: map<nat, Posting>)
    requires AllSorted(lanes)
    ensures Inverts(m, lanes, |lanes|)
  {
    m := map[];
    NothingFiled(lanes);
    for slot := 0 to |lanes|
      invariant Inverts(m, lanes, slot)
    {
      m := FileLane(m, lanes, slot);
    }
  }

  // ----- back to lanes ------------------------------------------------------

  /** Append a term to the lane of every slot its posting names. */
  function PushAll(acc: seq<Lane>, t: nat, posting: Posting): (r: seq<Lane>)
    ensures |r| == |acc|
  {
    if posting == [] then acc
    else
      var before, (slot, w) := PushAll(acc, t, posting[..|posting| - 1]), posting[|posting| - 1];
      if slot < |before| then before[slot := Pushed(before[slot], t, w)] else before
  }

  function Rebuilt(count: nat, terms: seq<(nat, Posting)>): (r: seq<Lane>)
    ensures |r| == count
  {
    if terms == [] then seq(count, _ => None)
    else PushAll(Rebuilt(count, terms[..|terms| - 1]), terms[|terms| - 1].0, terms[|terms| - 1].1)
  }

  /** Rebuild the lanes from postings in term order; slots out of range are ignored. */
  method PostingsToSparse(terms: seq<(nat, Posting)>, count: nat) returns (acc: seq<Lane>)
    ensures acc == Rebuilt(count, terms)
  {
    acc := seq(count, _ => None);
    for i := 0 to |terms|
      invariant acc == Rebuilt(count, terms[..i])
    {
      var (t, posting) := terms[i];
      ghost var before := acc;
      for j := 0 to |posting|
        invariant acc == PushAll(before, t, posting[..j])
      {
        var (slot, w) := posting[j];
        assert posting[..j + 1][..j] == posting[..j];
        if slot < |acc| {
          acc := acc[slot := Pushed(acc[slot], t, w)];
        }
      }
      assert posting[..|posting|] == posting;
      assert terms[..i + 1][..i] == terms[..i];
    }
    assert terms[..|terms|] == terms;
  }

  ghost predicate AllUpto(acc: seq<Lane>, lanes: seq<Lane>, t: nat)
    requires AllSorted(lanes)
  {
    |acc| == |lanes| && forall s :: 0 <= s < |lanes| ==> acc[s] == Upto(lanes[s], t)
  }

  lemma PushSnoc(acc: seq<Lane>, t: nat, posting: Posting, slot: nat, w: real)
    requires slot < |acc|
    ensures var before := PushAll(acc, t, posting);
      PushAll(acc, t, posting + [(slot, w)]) == before[slot := Pushed(before[slot], t, w)]
  {
    assert (posting + [(slot, w)])[..|posting|] == posting;
  }

  /** Lanes moved on by one term below slot `n`, and not yet from there. */
  ghost predicate Halfway(acc: seq<Lane>, lanes: seq<Lane>, t: nat, n: nat)
    requires AllSorted(lanes) && n <= |lanes|
  {
    && |acc| == |lanes|
    && (forall s :: 0 <= s < n ==> acc[s] == Upto(lanes[s], t + 1))
    && (forall s :: n <= s < |lanes| ==> acc[s] == Upto(lanes[s], t))
  }

  lemma {:induction false} PushPosting(acc: seq<Lane>, lanes: seq<Lane>, t: nat, n: nat)
    requires AllSorted(lanes) && n <= |lanes| && AllUpto(acc, lanes, t)
    ensures Halfway(PushAll(acc, t, PostingOf(lanes, t, n)), lanes, t, n)
  {
    if n > 0 {
      PushPosting(acc, lanes, t, n - 1);
      UptoStep(lanes[n - 1], t);
      var before, found := PushAll(acc, t, PostingOf(lanes, t, n - 1)), Found(lanes[n - 1], t);
      if found.Some? {
        PushSnoc(acc, t, PostingOf(lanes, t, n - 1), n - 1, found.value);
        assert PostingOf(lanes, t, n) == PostingOf(lanes, t, n - 1) + [(n - 1, found.value)];
        hide PushAll, PostingOf, Upto, Found, Pushed, Sorted;
        HalfwayStep(before, lanes, t, n, Pushed(before[n - 1], t, found.value));
      } else {
        assert PostingOf(lanes, t, n) == PostingOf(lanes, t, n - 1);
        hide PushAll, PostingOf, Upto, Found, Pushed, Sorted;
        HalfwayStep(before, lanes, t, n, before[n - 1]);
        assert before[n - 1 := before[n - 1]] == before;
      }
    }
  }

  lemma HalfwayStep(acc: seq<Lane>, lanes: seq<Lane>, t: nat, n: nat, lane: Lane)
    requires AllSorted(lanes) && 0 < n <= |lanes| && Halfway(acc, lanes, t, n - 1) && lane == Upto(lanes[n - 1], t + 1)
    ensures Halfway(acc[n - 1 := lane], lanes, t, n)
  {
    hide Upto;
  }

  /** Postings in term order, as the sealed segment lists them. */
  ghost predicate Listing(terms: seq<(nat, Posting)>, m: map<nat, Posting>) {
    && (forall i, j :: 0 <= i < j < |terms| ==> terms[i].0 < terms[j].0)
    && (forall i :: 0 <= i < |terms| ==> terms[i].0 in m && terms[i].1 == m[terms[i].0])
    && (forall t :: t in m ==> exists i :: 0 <= i < |terms| && terms[i].0 == t)
  }

  /** One past the last of the first `i` terms. */
  function Bound(terms: seq<(nat, Posting)>, i: nat): nat
    requires i <= |terms|
  {
    if i == 0 then 0 else terms[i - 1].0 + 1
  }

  /** An index of a lane is the term of some posting. */
  lemma IndexIsTerm(m: map<nat, Posting>, lanes: seq<Lane>, slot: nat, k: nat)
    requires AllSorted(lanes) && Inverts(m, lanes, |lanes|) && slot < |lanes|
    requires lanes[slot].Some? && k < |lanes[slot].value.indices|
    ensures lanes[slot].value.indices[k] in m
  {
    var t := lanes[slot].value.indices[k];
    CountIs(lanes[slot].value.indices, t, k);
    FoundIsPosted(lanes, t, |lanes|, slot);
    assert GetPosting(m, t) == PostingOf(lanes, t, |lanes|);
  }

  lemma {:induction false} FoundIsPosted(lanes: seq<Lane>, t: nat, n: nat, slot: nat)
    requires AllSorted(lanes) && slot < n <= |lanes| && Found(lanes[slot], t).Some?
    ensures PostingOf(lanes, t, n) != []
  {
    if slot < n - 1 {
      FoundIsPosted(lanes, t, n - 1, slot);
    }
  }

  lemma NoIndexBetween(m: map<nat, Posting>, lanes: seq<Lane>, terms: seq<(nat, Posting)>, i: nat, slot: nat, k: nat)
    requires AllSorted(lanes) && Inverts(m, lanes, |lanes|) && Listing(terms, m) && i < |terms| && slot < |lanes|
    requires lanes[slot].Some? && k < |lanes[slot].value.indices|
    ensures !(Bound(terms, i) <= lanes[slot].value.indices[k] < terms[i].0)
  {
    IndexIsTerm(m, lanes, slot, k);
    var j :| 0 <= j < |terms| && terms[j].0 == lanes[slot].value.indices[k];
  }

  lemma {:induction false} RebuiltUpto(m: map<nat, Posting>, lanes: seq<Lane>, terms: seq<(nat, Posting)>, i: nat)
    requires AllSorted(lanes) && Inverts(m, lanes, |lanes|) && Listing(terms, m) && i <= |terms|
    ensures AllUpto(Rebuilt(|lanes|, terms[..i]), lanes, Bound(terms, i))
  {
    if i == 0 {
      forall s | 0 <= s < |lanes| ensures Upto(lanes[s], 0) == None {
        if lanes[s].Some? {
          CountIs(lanes[s].value.indices, 0, 0);
        }
      }
    } else {
      RebuiltUpto(m, lanes, terms, i - 1);
      var acc, t := Rebuilt(|lanes|, terms[..i - 1]), terms[i - 1].0;
      BoundReaches(m, lanes, terms, i - 1);
      assert GetPosting(m, t) == PostingOf(lanes, t, |lanes|);
      PushPosting(acc, lanes, t, |lanes|);
      assert terms[..i][..i - 1] == terms[..i - 1];
    }
  }

  lemma BoundReaches(m: map<nat, Posting>, lanes: seq<Lane>, terms: seq<(nat, Posting)>, i: nat)
    requires AllSorted(lanes) && Inverts(m, lanes, |lanes|) && Listing(terms, m) && i < |terms|
    ensures Bound(terms, i) <= terms[i].0
    ensures forall s :: 0 <= s < |lanes| ==> Upto(lanes[s], Bound(terms, i)) == Upto(lanes[s], terms[i].0)
  {
    forall s | 0 <= s < |lanes| ensures Upto(lanes[s], Bound(terms, i)) == Upto(lanes[s], terms[i].0) {
      if lanes[s].Some? {
        forall k | 0 <= k < |lanes[s].value.indices|
          ensures !(Bound(terms, i) <= lanes[s].value.indices[k] < terms[i].0)
        {
          NoIndexBetween(m, lanes, terms, i, s, k);
        }
      }
      UptoGap(lanes[s], Bound(terms, i), terms[i].0);
    }
  }

  lemma BelowLastBound(m: map<nat, Posting>, lanes: seq<Lane>, terms: seq<(nat, Posting)>, slot: nat, k: nat)
    requires AllSorted(lanes) && Inverts(m, lanes, |lanes|) && Listing(terms, m) && slot < |lanes|
    requires lanes[slot].Some? && k < |lanes[slot].value.indices|
    ensures lanes[slot].value.indices[k] < Bound(terms, |terms|)
  {
    IndexIsTerm(m, lanes, slot, k);
    var j :| 0 <= j < |terms| && terms[j].0 == lanes[slot].value.indices[k];
    if j < |terms| - 1 {
      assert terms[j].0 < terms[|terms| - 1].0;
    }
  }

  /** Sealing and loading give every slot its lane back, except that a lane
      without entries comes back as no lane. */
  lemma PostingsRoundTrip(m: map<nat, Posting>, lanes: seq<Lane>, terms: seq<(nat, Posting)>)
    requires AllSorted(lanes) && Inverts(m, lanes, |lanes|) && Listing(terms, m)
    ensures forall s :: 0 <= s < |lanes| ==> Rebuilt(|lanes|, terms)[s] == Normal(lanes[s])
  {
    RebuiltUpto(m, lanes, terms, |terms|);
    assert terms[..|terms|] == terms;
    forall s | 0 <= s < |lanes| ensures Upto(lanes[s], Bound(terms, |terms|)) == Normal(lanes[s]) {
      if lanes[s].Some? {
        forall k | 0 <= k < |lanes[s].value.indices| ensures lanes[s].value.indices[k] < Bound(terms, |terms|) {
          BelowLastBound(m, lanes, terms, s, k);
        }
      }
      UptoAll(lanes[s], Bound(terms, |terms|));
    }
  }

  ghost predicate NoBlankLane(lanes: seq<Lane>) {
    forall s :: 0 <= s < |lanes| && lanes[s].Some? ==> lanes[s].value.indices != []
  }

  /** The round trip is the identity exactly when no lane is present but empty. */
  lemma RoundTripIff(m: map<nat, Posting>, lanes: seq<Lane>, terms: seq<(nat, Posting)>)
    requires AllSorted(lanes) && Inverts(m, lanes, |lanes|) && Listing(terms, m)
    ensures Rebuilt(|lanes|, terms) == lanes <==> NoBlankLane(lanes)
  {
    PostingsRoundTrip(m, lanes, terms);
    if !NoBlankLane(lanes) {
      var s :| 0 <= s < |lanes| && lanes[s].Some? && lanes[s].value.indices == [];
      assert Rebuilt(|lanes|, terms)[s] == Normal(lanes[s]);
    }
  }
}
