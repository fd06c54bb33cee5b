/** Refit (`do_refit` in crates/veclite/src/collection.rs): fit the embedder on the
    stored texts, embed every text document again, upsert the results. */
module Refit {
  import opened Core
  import opened Collections
  import opened Filters
  import opened Linear
  import opened Slots
  import opened Sparse

  /** The vector of a text after a fit on a corpus; a fit forgets what was before. */
  type Embedding = (seq<string>, string) -> seq<real>

  ghost predicate Sized(embed: Embedding, dim: nat) {
    forall corpus: seq<string>, text: string :: |embed(corpus, text)| == dim
  }

  /** The stored text of a document, if it is one. */
  function TextOf(p: Point): Option<string> {
    var stored := Lookup(p.payload, "_text");
    if stored.None? then None else stored.value.AsStr()
  }

  function TextPoints(l: seq<Point>): seq<Point> {
    if l == [] then []
    else TextPoints(l[..|l| - 1]) + if TextOf(l[|l| - 1]).Some? then [l[|l| - 1]] else []
  }

  function OtherPoints(l: seq<Point>): seq<Point> {
    if l == [] then []
    else OtherPoints(l[..|l| - 1]) + if TextOf(l[|l| - 1]).Some? then [] else [l[|l| - 1]]
  }

  function CorpusOf(l: seq<Point>): seq<string> {
    if l == [] then []
    else
      var t := TextOf(l[|l| - 1]);
      CorpusOf(l[..|l| - 1]) + if t.Some? then [t.value] else []
  }

  /** An all-zero embedding is replaced by the first unit vector. */
  function NonZero(v: seq<real>): (r: seq<real>)
    ensures |r| == |v| && (|v| > 0 ==> !IsZero(r))
  {
    if |v| == 0 || exists i :: 0 <= i < |v| && v[i] != 0.0 then v
    else
      var r := seq(|v|, i => if i == 0 then 1.0 else 0.0);
      assert r[0] != 0.0;
      r
  }

  function Reembedded(embed: Embedding, corpus: seq<string>, p: Point, text: string): Point {
    var v := NonZero(embed(corpus, text));
    Point(p.id, v, Lane(v), p.payload)
  }

  /** What the upsert stores for a document: the normalized embedding. */
  function Renewed(config: Config, sqrt: real -> real, embed: Embedding, corpus: seq<string>, p: Point): Point
    requires TextOf(p).Some?
  {
    var q := Reembedded(embed, corpus, p, TextOf(p).value);
    var r := Prepare(config, sqrt, q, true);
    if r.Success? then r.value else q
  }

  function RenewedAll(
    config: Config, sqrt: real -> real, embed: Embedding, corpus: seq<string>, l: seq<Point>): (r: seq<Point>)
    requires forall i :: 0 <= i < |l| ==> TextOf(l[i]).Some?
    ensures |r| == |l|
  {
    if l == [] then []
    else RenewedAll(config, sqrt, embed, corpus, l[..|l| - 1]) + [Renewed(config, sqrt, embed, corpus, l[|l| - 1])]
  }

  lemma {:induction false} TextPointsHaveText(l: seq<Point>)
    ensures forall i :: 0 <= i < |TextPoints(l)| ==> TextOf(TextPoints(l)[i]).Some?
  {
    if l != [] {
      TextPointsHaveText(l[..|l| - 1]);
    }
  }

  /** The live points after a refit. */
  function Refitted(config: Config, sqrt: real -> real, embed: Embedding, l: seq<Point>): seq<Point> {
    TextPointsHaveText(l);
    PutAll(l, RenewedAll(config, sqrt, embed, CorpusOf(l), TextPoints(l)))
  }

  // ----- the shape of the result --------------------------------------------

  lemma {:induction false} WithoutJoin(a: seq<Point>, b: seq<Point>, id: string)
    ensures Without(a + b, id) == Without(a, id) + Without(b, id)
  {
    if b == [] {
      assert a + b == a;
    } else {
      var front, last := b[..|b| - 1], if b[|b| - 1].id == id then [] else [b[|b| - 1]];
      WithoutJoin(a, front, id);
      assert (a + b)[..|a + b| - 1] == a + front;
      assert (a + b)[|a + b| - 1] == b[|b| - 1];
      assert Without(a, id) + Without(front, id) + last == Without(a, id) + (Without(front, id) + last);
    }
  }

  function IdsOf(l: seq<Point>): (r: seq<string>)
    ensures |r| == |l| && forall i :: 0 <= i < |l| ==> r[i] == l[i].id
  {
    seq(|l|, i requires 0 <= i < |l| => l[i].id)
  }

  lemma LastIsNew(front: seq<Point>, last: Point)
    requires DistinctIds(front + [last])
    ensures forall i :: 0 <= i < |front| ==> front[i].id != last.id
  {
    forall i | 0 <= i < |front| ensures front[i].id != last.id {
      assert (front + [last])[i].id != (front + [last])[|front|].id;
    }
  }

  lemma PutIs(l: seq<Point>, p: Point)
    ensures Put(l, p) == Without(l, p.id) + [p]
  {
  }

  lemma PutAfter(x: seq<Point>, front: seq<Point>, last: Point)
    requires DistinctIds(front + [last])
    ensures Put(x + front, last) == Without(x, last.id) + (front + [last])
  {
    LastIsNew(front, last);
    hide *;
    PutIs(x + front, last);
    WithoutJoin(x, front, last.id);
    WithoutAbsent(front, last.id);
    assert Without(x, last.id) + front + [last] == Without(x, last.id) + (front + [last]);
  }

  lemma {:induction false} PutAllSplits(l: seq<Point>, batch: seq<Point>)
    requires DistinctIds(batch)
    ensures PutAll(l, batch) == WithoutAll(l, IdsOf(batch)) + batch
  {
    if batch != [] {
      var front, last := batch[..|batch| - 1], batch[|batch| - 1];
      PutAllSplits(l, front);
      assert IdsOf(batch)[..|batch| - 1] == IdsOf(front);
      assert batch == front + [last];
      PutAfter(WithoutAll(l, IdsOf(front)), front, last);
    }
  }

  /** Removing ids, point by point. */
  function Outside(l: seq<Point>, ids: set<string>): seq<Point> {
    if l == [] then []
    else Outside(l[..|l| - 1], ids) + if l[|l| - 1].id in ids then [] else [l[|l| - 1]]
  }

  lemma {:induction false} WithoutOutside(l: seq<Point>, ids: set<string>, id: string)
    ensures Without(Outside(l, ids), id) == Outside(l, ids + {id})
  {
    if l != [] {
      var front, last := l[..|l| - 1], l[|l| - 1];
      WithoutOutside(front, ids, id);
      var before := Outside(front, ids);
      if last.id in ids {
        assert Outside(l, ids) == before;
      } else {
        assert Outside(l, ids)[..|before|] == before;
      }
    }
  }

  lemma {:induction false} WithoutAllOutside(l: seq<Point>, ids: seq<string>)
    ensures WithoutAll(l, ids) == Outside(l, Elems(ids))
  {
    if ids == [] {
      assert Elems(ids) == {};
      OutsideNothing(l);
    } else {
      WithoutAllOutside(l, ids[..|ids| - 1]);
      WithoutOutside(l, Elems(ids[..|ids| - 1]), ids[|ids| - 1]);
      assert Elems(ids) == Elems(ids[..|ids| - 1]) + {ids[|ids| - 1]};
    }
  }

  lemma {:induction false} OutsideNothing(l: seq<Point>)
    ensures Outside(l, {}) == l
  {
    if l != [] {
      OutsideNothing(l[..|l| - 1]);
    }
  }

  /** `ids` are exactly the ids of the text documents of `l`. */
  ghost predicate NamesTexts(l: seq<Point>, ids: set<string>) {
    forall i :: 0 <= i < |l| ==> (l[i].id in ids <==> TextOf(l[i]).Some?)
  }

  lemma {:induction false} OutsideIsOthers(l: seq<Point>, ids: set<string>)
    requires NamesTexts(l, ids)
    ensures Outside(l, ids) == OtherPoints(l)
  {
    if l != [] {
      OutsideIsOthers(l[..|l| - 1], ids);
    }
  }

  lemma {:induction false} TextPointsMembers(l: seq<Point>)
    ensures forall p :: p in TextPoints(l) <==> p in l && TextOf(p).Some?
    ensures DistinctIds(l) ==> DistinctIds(TextPoints(l))
  {
    if l != [] {
      var front, last := l[..|l| - 1], l[|l| - 1];
      TextPointsMembers(front);
      assert l == front + [last];
      if TextOf(last).Some? && DistinctIds(l) {
        DistinctSnoc(TextPoints(front), last);
      }
    }
  }

  lemma RenewedIdentity(config: Config, sqrt: real -> real, embed: Embedding, corpus: seq<string>, p: Point)
    requires TextOf(p).Some?
    ensures var r := Renewed(config, sqrt, embed, corpus, p); r.id == p.id && r.payload == p.payload
  {
  }

  lemma {:induction false} RenewedKeeps(
    config: Config, sqrt: real -> real, embed: Embedding, corpus: seq<string>, l: seq<Point>)
    requires forall i :: 0 <= i < |l| ==> TextOf(l[i]).Some?
    ensures var r := RenewedAll(config, sqrt, embed, corpus, l);
      forall i :: 0 <= i < |l| ==> r[i].id == l[i].id && r[i].payload == l[i].payload
  {
    if l != [] {
      RenewedKeeps(config, sqrt, embed, corpus, l[..|l| - 1]);
      RenewedIdentity(config, sqrt, embed, corpus, l[|l| - 1]);
    }
  }

  lemma TextNames(l: seq<Point>, batch: seq<Point>)
    requires DistinctIds(l) && |batch| == |TextPoints(l)|
    requires forall i :: 0 <= i < |batch| ==> batch[i].id == TextPoints(l)[i].id
    ensures DistinctIds(batch) && NamesTexts(l, Elems(IdsOf(batch)))
  {
    TextPointsMembers(l);
    var texts := TextPoints(l);
    forall i | 0 <= i < |l| ensures l[i].id in Elems(IdsOf(batch)) <==> TextOf(l[i]).Some? {
      if TextOf(l[i]).Some? {
        assert l[i] in texts;
        var k :| 0 <= k < |texts| && texts[k] == l[i];
        assert IdsOf(batch)[k] == l[i].id;
      }
      if l[i].id in Elems(IdsOf(batch)) {
        var k :| 0 <= k < |batch| && IdsOf(batch)[k] == l[i].id;
        assert texts[k] in l;
        var m :| 0 <= m < |l| && l[m] == texts[k];
        assert m == i;
      }
    }
  }

  /** A refit moves the text documents behind the others, in their order, and
      leaves the others alone. */
  lemma RefitShape(config: Config, sqrt: real -> real, embed: Embedding, l: seq<Point>)
    requires DistinctIds(l)
    ensures forall i :: 0 <= i < |TextPoints(l)| ==> TextOf(TextPoints(l)[i]).Some?
    ensures Refitted(config, sqrt, embed, l) ==
            OtherPoints(l) + RenewedAll(config, sqrt, embed, CorpusOf(l), TextPoints(l))
  {
    TextPointsHaveText(l);
    var batch := RenewedAll(config, sqrt, embed, CorpusOf(l), TextPoints(l));
    RenewedKeeps(config, sqrt, embed, CorpusOf(l), TextPoints(l));
    TextNames(l, batch);
    PutAllSplits(l, batch);
    WithoutAllOutside(l, IdsOf(batch));
    OutsideIsOthers(l, Elems(IdsOf(batch)));
  }

  // ----- idempotence --------------------------------------------------------

  lemma {:induction false} JoinTexts(a: seq<Point>, b: seq<Point>)
    requires forall i :: 0 <= i < |b| ==> TextOf(b[i]).Some?
    ensures TextPoints(a + b) == TextPoints(a) + b
  {
    if b == [] {
      assert a + b == a;
    } else {
      var front := b[..|b| - 1];
      JoinTexts(a, front);
      assert (a + b)[..|a + b| - 1] == a + front;
      assert b == front + [b[|b| - 1]];
    }
  }

  lemma {:induction false} JoinOthers(a: seq<Point>, b: seq<Point>)
    requires forall i :: 0 <= i < |b| ==> TextOf(b[i]).Some?
    ensures OtherPoints(a + b) == OtherPoints(a)
  {
    if b == [] {
      assert a + b == a;
    } else {
      JoinOthers(a, b[..|b| - 1]);
      assert (a + b)[..|a + b| - 1] == a + b[..|b| - 1];
    }
  }

  lemma {:induction false} JoinCorpus(a: seq<Point>, b: seq<Point>)
    ensures CorpusOf(a + b) == CorpusOf(a) + CorpusOf(b)
  {
    if b == [] {
      assert a + b == a;
    } else {
      JoinCorpus(a, b[..|b| - 1]);
      assert (a + b)[..|a + b| - 1] == a + b[..|b| - 1];
      assert (a + b)[|a + b| - 1] == b[|b| - 1];
    }
  }

  lemma {:induction false} OthersHaveNoTexts(l: seq<Point>)
    ensures TextPoints(OtherPoints(l)) == [] && OtherPoints(OtherPoints(l)) == OtherPoints(l) &&
      CorpusOf(OtherPoints(l)) == []
  {
    if l != [] {
      OthersHaveNoTexts(l[..|l| - 1]);
      var before := OtherPoints(l[..|l| - 1]);
      if TextOf(l[|l| - 1]).None? {
        assert OtherPoints(l)[..|before|] == before;
      } else {
        assert OtherPoints(l) == before;
      }
    }
  }

  lemma {:induction false} CorpusOfTexts(l: seq<Point>)
    ensures CorpusOf(TextPoints(l)) == CorpusOf(l)
  {
    if l != [] {
      CorpusOfTexts(l[..|l| - 1]);
      var before := TextPoints(l[..|l| - 1]);
      if TextOf(l[|l| - 1]).Some? {
        assert TextPoints(l)[..|before|] == before;
      } else {
        assert TextPoints(l) == before;
      }
    }
  }

  lemma {:induction false} SameTextsSameCorpus(a: seq<Point>, b: seq<Point>)
    requires |a| == |b| && forall i :: 0 <= i < |a| ==> a[i].payload == b[i].payload
    ensures CorpusOf(a) == CorpusOf(b)
  {
    if a != [] {
      SameTextsSameCorpus(a[..|a| - 1], b[..|b| - 1]);
    }
  }

  lemma {:induction false} SameTextsSameRenewal(
    config: Config, sqrt: real -> real, embed: Embedding, corpus: seq<string>, a: seq<Point>, b: seq<Point>)
    requires |a| == |b| && forall i :: 0 <= i < |a| ==>
      a[i].id == b[i].id && a[i].payload == b[i].payload && TextOf(a[i]).Some?
    ensures forall i :: 0 <= i < |b| ==> TextOf(b[i]).Some?
    ensures RenewedAll(config, sqrt, embed, corpus, a) == RenewedAll(config, sqrt, embed, corpus, b)
  {
    if a != [] {
      SameTextsSameRenewal(config, sqrt, embed, corpus, a[..|a| - 1], b[..|b| - 1]);
    }
  }

  /** A second refit changes nothing: not the points, not their order. */
  lemma RefitIdempotent(config: Config, sqrt: real -> real, embed: Embedding, l: seq<Point>)
    requires DistinctIds(l)
    ensures DistinctIds(Refitted(config, sqrt, embed, l))
    ensures Refitted(config, sqrt, embed, Refitted(config, sqrt, embed, l)) == Refitted(config, sqrt, embed, l)
  {
    RefitShape(config, sqrt, embed, l);
    var others, texts, corpus := OtherPoints(l), TextPoints(l), CorpusOf(l);
    var batch := RenewedAll(config, sqrt, embed, corpus, texts);
    RenewedKeeps(config, sqrt, embed, corpus, texts);
    PutAllDistinct(l, batch);
    JoinTexts(others, batch);
    JoinOthers(others, batch);
    JoinCorpus(others, batch);
    OthersHaveNoTexts(l);
    assert [] + batch == batch && [] + CorpusOf(batch) == CorpusOf(batch);
    SameTextsSameCorpus(batch, texts);
    CorpusOfTexts(l);
    SameTextsSameRenewal(config, sqrt, embed, corpus, texts, batch);
    RefitShape(config, sqrt, embed, others + batch);
  }

  lemma {:induction false} PutAllDistinct(l: seq<Point>, batch: seq<Point>)
    requires DistinctIds(l)
    ensures DistinctIds(PutAll(l, batch))
  {
    if batch != [] {
      PutAllDistinct(l, batch[..|batch| - 1]);
      PutIsMapUpdate(PutAll(l, batch[..|batch| - 1]), batch[|batch| - 1]);
    }
  }

  // ----- what a refit keeps -------------------------------------------------

  lemma InJoin(a: seq<Point>, b: seq<Point>, p: Point)
    requires DistinctIds(a + b) && (p in a || p in b)
    ensures p.id in AsMap(a + b) && AsMap(a + b)[p.id] == p
  {
    AsMapMembers(a + b);
    assert p in a + b;
    var i :| 0 <= i < |a + b| && (a + b)[i] == p;
  }

  lemma {:induction false} OtherPointsMembers(l: seq<Point>)
    ensures forall p :: p in OtherPoints(l) <==> p in l && TextOf(p).None?
  {
    if l != [] {
      OtherPointsMembers(l[..|l| - 1]);
      assert l == l[..|l| - 1] + [l[|l| - 1]];
    }
  }

  /** A refit keeps every id and payload, leaves points without text alone, and
      gives every document the embedding of its text under the whole corpus. */
  lemma RefitKeeps(config: Config, sqrt: real -> real, embed: Embedding, l: seq<Point>, p: Point)
    requires DistinctIds(l) && p in l
    ensures var m := AsMap(Refitted(config, sqrt, embed, l));
      && p.id in m && m[p.id].payload == p.payload
      && m[p.id] == if TextOf(p).None? then p else Renewed(config, sqrt, embed, CorpusOf(l), p)
  {
    RefitShape(config, sqrt, embed, l);
    var others, texts := OtherPoints(l), TextPoints(l);
    var batch := RenewedAll(config, sqrt, embed, CorpusOf(l), texts);
    PutAllDistinct(l, batch);
    OtherPointsMembers(l);
    TextPointsMembers(l);
    if TextOf(p).None? {
      InJoin(others, batch, p);
    } else {
      RenewedIdentity(config, sqrt, embed, CorpusOf(l), p);
      RenewedIn(config, sqrt, embed, CorpusOf(l), texts, p);
      InJoin(others, batch, Renewed(config, sqrt, embed, CorpusOf(l), p));
    }
  }

  lemma {:induction false} RenewedIn(
    config: Config, sqrt: real -> real, embed: Embedding, corpus: seq<string>, l: seq<Point>, p: Point)
    requires (forall i :: 0 <= i < |l| ==> TextOf(l[i]).Some?) && p in l && TextOf(p).Some?
    ensures Renewed(config, sqrt, embed, corpus, p) in RenewedAll(config, sqrt, embed, corpus, l)
  {
    if p != l[|l| - 1] {
      assert p in l[..|l| - 1];
      RenewedIn(config, sqrt, embed, corpus, l[..|l| - 1], p);
    }
  }

  /** The text of a document is the string under `_text` in its payload. */
  lemma TextIs(p: Point, text: string)
    ensures TextOf(p) == Some(text) <==>
      && p.payload.Some? && p.payload.value.Object? && "_text" in p.payload.value.fields
      && p.payload.value.fields["_text"] == Str(text)
  {
  }

  /** The corpus is the texts of the documents, in their order. */
  lemma {:induction false} CorpusIsTexts(l: seq<Point>)
    ensures |CorpusOf(l)| == |TextPoints(l)|
    ensures forall i :: 0 <= i < |CorpusOf(l)| ==> TextOf(TextPoints(l)[i]) == Some(CorpusOf(l)[i])
  {
    if l != [] {
      CorpusIsTexts(l[..|l| - 1]);
    }
  }

  /** The embedding, or the first unit vector where that is zero. */
  ghost predicate Usable(v: seq<real>, raw: seq<real>) {
    && |raw| == |v|
    && (!IsZero(v) ==> raw == v)
    && (IsZero(v) ==> forall i :: 0 <= i < |raw| ==> raw[i] == if i == 0 then 1.0 else 0.0)
  }

  /** A document embedded again has the vector of its text as ingest stores it, with the
      lane of its components; its id and payload stay. */
  lemma RenewedMeans(config: Config, sqrt: real -> real, embed: Embedding, corpus: seq<string>, p: Point)
    returns (raw: seq<real>)
    requires SqrtLaw(sqrt) && Sized(embed, config.dimension) && config.dimension > 0
    requires Stored(config, sqrt, p) && TextOf(p).Some?
    ensures Usable(embed(corpus, TextOf(p).value), raw)
    ensures StoredAs(config, Point(p.id, raw, Lane(raw), p.payload), Renewed(config, sqrt, embed, corpus, p))
  {
    raw := NonZero(embed(corpus, TextOf(p).value));
    RenewalPrepares(config, sqrt, embed, corpus, p);
    PrepareMeans(config, sqrt, Reembedded(embed, corpus, p, TextOf(p).value), true);
  }

  // ----- the loop over the store --------------------------------------------

  lemma RenewalPrepares(config: Config, sqrt: real -> real, embed: Embedding, corpus: seq<string>, p: Point)
    requires SqrtLaw(sqrt) && Sized(embed, config.dimension) && config.dimension > 0
    requires Stored(config, sqrt, p) && TextOf(p).Some?
    ensures Prepare(config, sqrt, Reembedded(embed, corpus, p, TextOf(p).value), true) ==
      Success(Renewed(config, sqrt, embed, corpus, p))
  {
    var v := NonZero(embed(corpus, TextOf(p).value));
    assert |embed(corpus, TextOf(p).value)| == config.dimension;
    NormZero(sqrt, v);
    LaneIsValid(v);
  }

  lemma LaneIsValid(v: seq<real>)
    ensures Lane(v).Some? ==> ValidSparse(Lane(v).value)
  {
    var s := NonZeroBelow(v, |v|);
    assert StrictlyIncreasing(s.indices);
  }

  /** The documents embedded again, before validation. */
  function Fresh(embed: Embedding, corpus: seq<string>, l: seq<Point>): (r: seq<Point>)
    requires forall i :: 0 <= i < |l| ==> TextOf(l[i]).Some?
    ensures |r| == |l| && forall i :: 0 <= i < |l| ==> r[i] == Reembedded(embed, corpus, l[i], TextOf(l[i]).value)
  {
    seq(|l|, i requires 0 <= i < |l| => Reembedded(embed, corpus, l[i], TextOf(l[i]).value))
  }

  lemma {:induction false} RenewalsPrepare(
    config: Config, sqrt: real -> real, embed: Embedding, corpus: seq<string>, l: seq<Point>)
    requires SqrtLaw(sqrt) && Sized(embed, config.dimension) && config.dimension > 0
    requires AllStored(config, sqrt, l) && forall i :: 0 <= i < |l| ==> TextOf(l[i]).Some?
    ensures PrepareAll(config, sqrt, Fresh(embed, corpus, l), true) ==
      Success(RenewedAll(config, sqrt, embed, corpus, l))
  {
    if l != [] {
      var front, last := l[..|l| - 1], l[|l| - 1];
      forall p | p in front ensures Stored(config, sqrt, p) {
        assert p in l;
      }
      RenewalsPrepare(config, sqrt, embed, corpus, front);
      assert last in l;
      RenewalPrepares(config, sqrt, embed, corpus, last);
      assert Fresh(embed, corpus, l)[..|l| - 1] == Fresh(embed, corpus, front);
    }
  }

  lemma TextSnoc(l: seq<Point>, p: Point)
    ensures TextPoints(l + [p]) == TextPoints(l) + if TextOf(p).Some? then [p] else []
    ensures CorpusOf(l + [p]) == CorpusOf(l) + if TextOf(p).Some? then [TextOf(p).value] else []
  {
    assert (l + [p])[..|l|] == l;
  }

  lemma TextStep(d: Data, dim: nat, slot: nat)
    requires Shape(d, dim) && slot < |d.ids|
    ensures var p, text := PointAt(d, dim, slot), TextOf(PointAt(d, dim, slot));
      var before, after := PointsBelow(d, dim, slot), PointsBelow(d, dim, slot + 1);
      && TextPoints(after) == TextPoints(before) + (if Live(d, slot) && text.Some? then [p] else [])
      && CorpusOf(after) == CorpusOf(before) + (if Live(d, slot) && text.Some? then [text.value] else [])
  {
    if Live(d, slot) {
      TextSnoc(PointsBelow(d, dim, slot), PointAt(d, dim, slot));
    } else {
      assert PointsBelow(d, dim, slot + 1) == PointsBelow(d, dim, slot);
    }
  }

  /** Live text documents in slot order, with their texts. */
  method LiveTexts(c: CollectionData, dim: nat) returns (docs: seq<Point>, corpus: seq<string>)
    requires Shape(c.Model(), dim)
    ensures docs == TextPoints(Points(c.Model(), dim)) && corpus == CorpusOf(Points(c.Model(), dim))
  {
    assert |c.ids| == |c.Model().ids|;
    docs, corpus := [], [];
    hide *;
    for slot := 0 to |c.ids|
      invariant docs == TextPoints(PointsBelow(c.Model(), dim, slot))
      invariant corpus == CorpusOf(PointsBelow(c.Model(), dim, slot))
    {
      TextStep(c.Model(), dim, slot);
      var live := c.IsLive(slot);
      if live {
        var p := c.ReadPoint(slot, dim);
        var text := TextOf(p);
        if text.Some? {
          docs := docs + [p];
          corpus := corpus + [text.value];
        }
      }
    }
  }

  /** Embed every document again and derive its sparse lane. */
  method Reembed(embed: Embedding, corpus: seq<string>, docs: seq<Point>) returns (out: seq<Point>)
    requires forall i :: 0 <= i < |docs| ==> TextOf(docs[i]).Some?
    ensures out == Fresh(embed, corpus, docs)
  {
    out := [];
    for i := 0 to |docs|
      invariant |out| == i && forall j :: 0 <= j < i ==>
        out[j] == Reembedded(embed, corpus, docs[j], TextOf(docs[j]).value)
    {
      var v := NonZero(embed(corpus, TextOf(docs[i]).value));
      var sparse := SparseFromDense(v);
      out := out + [Point(docs[i].id, v, sparse, docs[i].payload)];
    }
  }

  /** Upsert the documents that were embedded again. */
  method PutBack(
    c: CollectionData, config: Config, sqrt: real -> real, ghost embed: Embedding, out: seq<Point>)
    returns (r: Result<(), Error>)
    requires Valid(c.Model(), config.dimension) && AllStored(config, sqrt, Points(c.Model(), config.dimension))
    requires SqrtLaw(sqrt) && Sized(embed, config.dimension) && config.dimension > 0
    requires var l := Points(c.Model(), config.dimension);
      && (forall i :: 0 <= i < |TextPoints(l)| ==> TextOf(TextPoints(l)[i]).Some?)
      && out == Fresh(embed, CorpusOf(l), TextPoints(l))
    modifies c, c.payloadIndexes
    ensures r.Success? && Valid(c.Model(), config.dimension)
    ensures Points(c.Model(), config.dimension) ==
      Refitted(config, sqrt, embed, Points(old(c.Model()), config.dimension))
  {
    ghost var l := Points(c.Model(), config.dimension);
    TextPointsMembers(l);
    RenewalsPrepare(config, sqrt, embed, CorpusOf(l), TextPoints(l));
    r := c.UpsertBatch(config, sqrt, out, true);
  }

  /** Fit on the stored texts and upsert every document again. */
  method DoRefit(c: CollectionData, config: Config, sqrt: real -> real, embed: Embedding) returns (r: Result<(), Error>)
    requires Valid(c.Model(), config.dimension) && AllStored(config, sqrt, Points(c.Model(), config.dimension))
    requires SqrtLaw(sqrt) && Sized(embed, config.dimension) && config.dimension > 0
    modifies c, c.payloadIndexes
    ensures r.Success? && Valid(c.Model(), config.dimension)
    ensures Points(c.Model(), config.dimension) ==
      Refitted(config, sqrt, embed, Points(old(c.Model()), config.dimension))
  {
    ghost var l := Points(c.Model(), config.dimension);
    var docs, corpus := LiveTexts(c, config.dimension);
    TextPointsHaveText(l);
    if docs == [] {
      return Success(());
    }
    var out := Reembed(embed, corpus, docs);
    r := PutBack(c, config, sqrt, embed, out);
  }
}
