/** The trainable embedders (bow.rs, char_ngram.rs, bm25.rs and tfidf.rs under
    crates/veclite/src/embedding): batch fit, incremental update and embedding.
    A document is the list of tokens, or n-grams, of a text. */
module Embedders {
  import opened Core
  import opened Linear
  import opened Sorting
  import opened Vocabulary
  import opened Words

  // ----- counting -----------------------------------------------------------

  function Got(m: map<string, nat>, t: string): nat {
    if t in m then m[t] else 0
  }

  ghost predicate Counts(m: map<string, nat>, doc: Doc) {
    forall t :: Got(m, t) == Count(doc, t) && (t in m <==> t in doc)
  }

  method CountTokens(doc: Doc) returns (m: map<string, nat>)
    ensures Counts(m, doc)
  {
    m := map[];
    for i := 0 to |doc|
      invariant Counts(m, doc[..i])
    {
      assert doc[..i + 1] == doc[..i] + [doc[i]];
      m := m[doc[i] := Got(m, doc[i]) + 1];
    }
    assert doc[..|doc|] == doc;
  }

  ghost predicate Frequencies(m: map<string, nat>, docs: seq<Doc>) {
    forall t :: Got(m, t) == DocFreq(docs, t) && (t in m <==> t in TermsOf(docs))
  }

  ghost predicate Totals(m: map<string, nat>, docs: seq<Doc>) {
    forall t :: Got(m, t) == TotalCount(docs, t) && (t in m <==> t in TermsOf(docs))
  }

  /** One more document for every distinct term of a list. */
  method Bump(before: map<string, nat>, unique: seq<string>) returns (m: map<string, nat>)
    requires Distinct(unique)
    ensures forall t ::
      Got(m, t) == Got(before, t) + (if t in unique then 1 else 0) && (t in m <==> t in before || t in unique)
  {
    m := before;
    for i := 0 to |unique|
      invariant forall t :: Got(m, t) == Got(before, t) + (if t in unique[..i] then 1 else 0)
      invariant forall t :: t in m <==> t in before || t in unique[..i]
    {
      assert unique[..i + 1] == unique[..i] + [unique[i]];
      assert unique[i] !in unique[..i];
      m := m[unique[i] := Got(m, unique[i]) + 1];
    }
    assert unique[..|unique|] == unique;
  }

  /** Add the counts of one document. */
  method AddCounts(before: map<string, nat>, doc: Doc) returns (m: map<string, nat>)
    ensures forall t :: Got(m, t) == Got(before, t) + Count(doc, t) && (t in m <==> t in before || t in doc)
  {
    m := before;
    for i := 0 to |doc|
      invariant forall t :: Got(m, t) == Got(before, t) + Count(doc[..i], t)
      invariant forall t :: t in m <==> t in before || t in doc[..i]
    {
      assert doc[..i + 1] == doc[..i] + [doc[i]];
      m := m[doc[i] := Got(m, doc[i]) + 1];
    }
    assert doc[..|doc|] == doc;
  }

  /** Term and document frequencies of a corpus. */
  method Tally(docs: seq<Doc>) returns (totals: map<string, nat>, frequencies: map<string, nat>)
    ensures Totals(totals, docs) && Frequencies(frequencies, docs)
  {
    totals, frequencies := map[], map[];
    for i := 0 to |docs|
      invariant Totals(totals, docs[..i]) && Frequencies(frequencies, docs[..i])
    {
      forall t ensures docs[..i + 1] == docs[..i] + [docs[i]] && DocFreq(docs[..i + 1], t) ==
        DocFreq(docs[..i], t) + (if t in docs[i] then 1 else 0) && TotalCount(docs[..i + 1], t) ==
        TotalCount(docs[..i], t) + Count(docs[i], t)
      {
        Snoc(docs[..i], docs[i], t);
      }
      Snoc(docs[..i], docs[i], "");
      totals := AddCounts(totals, docs[i]);
      var unique := SortedOnce(docs[i]);
      frequencies := Bump(frequencies, unique);
    }
    assert docs[..|docs|] == docs;
  }

  // ----- choosing the vocabulary --------------------------------------------

  type Weighed = (string, real)

  /** Heavier first, ties by term. */
  predicate Heavier(a: Weighed, b: Weighed) {
    a.1 > b.1 || (a.1 == b.1 && StrLeq(a.0, b.0))
  }

  lemma HeavierOrder()
    ensures TotalPreorder(Heavier)
    ensures forall a, b :: Heavier(a, b) && Heavier(b, a) ==> a == b
  {
    forall a, b ensures Heavier(a, b) || Heavier(b, a) ensures Heavier(a, b) && Heavier(b, a) ==> a == b {
      StrTotal(a.0, b.0);
    }
    forall a, b, c | Heavier(a, b) && Heavier(b, c) ensures Heavier(a, c) {
      if StrLeq(a.0, b.0) && StrLeq(b.0, c.0) {
        StrTransitive(a.0, b.0, c.0);
      }
    }
  }

  /** The `dimension` heaviest terms in order. */
  ghost predicate Heaviest(terms: seq<string>, all: set<string>, weight: string -> real, dimension: nat) {
    && Distinct(terms) && (forall t :: t in terms ==> t in all)
    && |terms| == Min(dimension, |all|)
    && (forall i, j :: 0 <= i < j < |terms| ==> Heavier((terms[i], weight(terms[i])), (terms[j], weight(terms[j]))))
    && (forall t, o :: t in terms && o in all && o !in terms ==> Heavier((t, weight(t)), (o, weight(o))))
  }

  method ListOf(all: set<string>) returns (l: seq<string>)
    ensures Distinct(l) && forall t :: t in l <==> t in all
  {
    l := [];
    var rest := all;
    while rest != {}
      invariant rest <= all && Distinct(l) && forall t :: t in l <==> t in all && t !in rest
      decreases |rest|
    {
      var t :| t in rest;
      rest := rest - {t};
      l := l + [t];
    }
  }

  function Weighing(weight: string -> real): string -> Weighed {
    t => (t, weight(t))
  }

  function TermOf(w: Weighed): string {
    w.0
  }

  method ChooseTerms(all: set<string>, weight: string -> real, dimension: nat) returns (terms: seq<string>)
    ensures Heaviest(terms, all, weight, dimension)
  {
    var listed := ListOf(all);
    var pairs := Map(Weighing(weight), listed);
    var top := Take(Sort(Heavier, pairs), dimension);
    terms := Map(TermOf, top);
    HeavierOrder();
    SortAndCut(Heavier, pairs, dimension);
    MembersBound(listed, all);
    ListedAll(listed, all);
    ChosenTerms(all, weight, dimension, listed, top);
  }

  lemma ListedAll(l: seq<string>, all: set<string>)
    requires Distinct(l) && forall t :: t in l <==> t in all
    ensures |l| == |all|
  {
    DistinctElems(l);
    assert Elems(l) == all;
  }

  lemma {:induction false} DistinctElems(l: seq<string>)
    requires Distinct(l)
    ensures |Elems(l)| == |l|
  {
    if l != [] {
      DistinctElems(l[..|l| - 1]);
      assert Elems(l) == Elems(l[..|l| - 1]) + {l[|l| - 1]};
    } else {
      assert Elems(l) == {};
    }
  }

  lemma PairOf(weight: string -> real, listed: seq<string>, w: Weighed)
    ensures w in Map(Weighing(weight), listed) <==> w.0 in listed && w.1 == weight(w.0)
  {
    var pairs := Map(Weighing(weight), listed);
    if w.0 in listed && w.1 == weight(w.0) {
      var i :| 0 <= i < |listed| && listed[i] == w.0;
      assert pairs[i] == w;
    }
    if w in pairs {
      var i :| 0 <= i < |pairs| && pairs[i] == w;
      assert listed[i] == w.0;
    }
  }

  lemma ChosenTerms(all: set<string>, weight: string -> real, dimension: nat, listed: seq<string>, top: seq<Weighed>)
    requires Distinct(listed) && (forall t :: t in listed <==> t in all) && |listed| == |all|
    requires StrictlySorted(Heavier, top) && |top| == Min(dimension, |listed|)
    requires forall w :: w in top ==> w in Map(Weighing(weight), listed)
    requires forall h, o :: h in top && o in Map(Weighing(weight), listed) && o !in top ==> Heavier(h, o)
    ensures Heaviest(Map(TermOf, top), all, weight, dimension)
  {
    var terms := Map(TermOf, top);
    forall i | 0 <= i < |top| ensures top[i] == (terms[i], weight(terms[i])) && terms[i] in all {
      assert top[i] in top;
      PairOf(weight, listed, top[i]);
    }
    forall i, j | 0 <= i < j < |terms| ensures terms[i] != terms[j] {
      assert Heavier(top[i], top[j]) && !Heavier(top[j], top[i]);
    }
    forall w | w in top ensures w.0 in terms {
      var j :| 0 <= j < |top| && top[j] == w;
      assert terms[j] == w.0;
    }
    forall t, o | t in terms && o in all && o !in terms ensures Heavier((t, weight(t)), (o, weight(o))) {
      var i :| 0 <= i < |terms| && terms[i] == t;
      assert top[i] in top;
      PairOf(weight, listed, (o, weight(o)));
      assert (o, weight(o)) !in top;
    }
  }

  /** Two lists of the heaviest terms hold the same terms: one that only the first
      held and one that only the second held would outweigh each other. */
  lemma HeaviestMembers(a: seq<string>, b: seq<string>, all: set<string>, weight: string -> real, dimension: nat)
    requires Heaviest(a, all, weight, dimension) && Heaviest(b, all, weight, dimension)
    ensures forall t :: t in a ==> t in b
  {
    DistinctElems(b);
    if forall t :: t in b ==> t in a {
      MembersBound(b, Elems(a));
      DistinctElems(a);
    } else {
      var o :| o in b && o !in a;
      HeavierOrder();
    }
  }

  lemma HeaviestSorted(a: seq<string>, all: set<string>, weight: string -> real, dimension: nat)
    requires Heaviest(a, all, weight, dimension)
    ensures SortedBy(Heavier, Map(Weighing(weight), a))
  {
  }

  /** The weights determine the list: no choice is left to the order of a hash map. */
  lemma HeaviestUnique(a: seq<string>, b: seq<string>, all: set<string>, weight: string -> real, dimension: nat)
    requires Heaviest(a, all, weight, dimension) && Heaviest(b, all, weight, dimension)
    ensures a == b
  {
    HeaviestMembers(a, b, all, weight, dimension);
    HeaviestMembers(b, a, all, weight, dimension);
    HeaviestSorted(a, all, weight, dimension);
    HeaviestSorted(b, all, weight, dimension);
    assert Distinct(a) && Distinct(b);
    hide Heaviest;
    DistinctPermutes(a, b);
    MapPermutes(Weighing(weight), a, b);
    HeavierOrder();
    var v, w := Map(Weighing(weight), a), Map(Weighing(weight), b);
    SortedUnique(Heavier, v, w);
    assert |a| == |b|;
    forall i | 0 <= i < |a| ensures a[i] == b[i] {
      assert v[i] == (a[i], weight(a[i])) && w[i] == (b[i], weight(b[i]));
    }
  }

  lemma {:induction false} ListExists(all: set<string>)
    ensures exists l: seq<string> :: Distinct(l) && (forall t :: t in l <==> t in all) && |l| == |all|
  {
    if all == {} {
      assert forall t :: t in [] <==> t in all;
    } else {
      var last :| last in all;
      ListExists(all - {last});
      var front: seq<string> :| Distinct(front) && (forall t :: t in front <==> t in all - {last}) &&
        |front| == |all - {last}|;
      assert forall t :: t in front + [last] <==> t in all;
    }
  }

  lemma HeaviestExists(all: set<string>, weight: string -> real, dimension: nat)
    ensures exists terms :: Heaviest(terms, all, weight, dimension)
  {
    ListExists(all);
    var listed: seq<string> :| Distinct(listed) && (forall t :: t in listed <==> t in all) && |listed| == |all|;
    var pairs := Map(Weighing(weight), listed);
    HeavierOrder();
    SortAndCut(Heavier, pairs, dimension);
    ChosenTerms(all, weight, dimension, listed, Take(Sort(Heavier, pairs), dimension));
  }

  /** The vocabulary that a fit chooses. */
  ghost function TopTerms(all: set<string>, weight: string -> real, dimension: nat): (terms: seq<string>)
    ensures Heaviest(terms, all, weight, dimension)
  {
    HeaviestExists(all, weight, dimension);
    var terms :| Heaviest(terms, all, weight, dimension);
    terms
  }

  lemma HeaviestTracks(terms: seq<string>, seen: seq<Doc>, weight: string -> real, dimension: nat)
    requires Heaviest(terms, TermsOf(seen), weight, dimension)
    ensures Tracks(terms, dimension, seen)
  {
    MembersBound(terms, TermsOf(seen));
  }

  /** The index map of a chosen vocabulary. */
  method Number(terms: seq<string>) returns (vocabulary: map<string, nat>)
    ensures vocabulary == IndexOf(terms)
  {
    vocabulary := map[];
    for i := 0 to |terms|
      invariant vocabulary == IndexOf(terms[..i])
    {
      assert terms[..i + 1][..i] == terms[..i];
      vocabulary := vocabulary[terms[i] := i];
    }
    assert terms[..|terms|] == terms;
  }

  /** What one step of `Append` relies on. */
  lemma AppendStep(terms: seq<string>, dimension: nat, unique: seq<string>, i: nat)
    requires Distinct(terms) && |terms| <= dimension && i < |unique|
    ensures var now, t := Grown(terms, dimension, unique[..i]), unique[i];
      && |IndexOf(now)| == |now| && (t in IndexOf(now) <==> t in now)
      && IndexOf(now + [t]) == IndexOf(now)[t := |now|]
      && Grown(terms, dimension, unique[..i + 1]) == if t in now || |now| >= dimension then now else now + [t]
  {
    var now, t := Grown(terms, dimension, unique[..i]), unique[i];
    GrownExtends(terms, dimension, unique[..i]);
    GrownSnoc(terms, dimension, unique[..i], t);
    assert unique[..i + 1] == unique[..i] + [t];
    IndexOfIs(now);
    IndexOfSnoc(now, t);
  }

  /** Append the unseen terms of a sorted list while there is room. */
  method Append(before: map<string, nat>, dimension: nat, unique: seq<string>, ghost terms: seq<string>)
    returns (vocabulary: map<string, nat>)
    requires before == IndexOf(terms) && Distinct(terms) && |terms| <= dimension
    ensures vocabulary == IndexOf(Grown(terms, dimension, unique))
  {
    vocabulary := before;
    for i := 0 to |unique|
      invariant vocabulary == IndexOf(Grown(terms, dimension, unique[..i]))
    {
      AppendStep(terms, dimension, unique, i);
      hide *;
      if unique[i] !in vocabulary && |vocabulary| < dimension {
        vocabulary := vocabulary[unique[i] := |vocabulary|];
      }
    }
    assert unique[..|unique|] == unique;
  }

  /** The vocabulary after one more document: its new terms joined in order. */
  ghost predicate GrewBy(before: seq<string>, after: seq<string>, dimension: nat, doc: Doc) {
    exists unique ::
      && Distinct(unique) && SortedBy(StrLeq, unique) && (forall t :: t in unique <==> t in doc)
      && after == Grown(before, dimension, unique)
  }

  // ----- term counts --------------------------------------------------------

  function CountWeight(doc: Doc): string -> real {
    t => Count(doc, t) as real
  }

  function TotalWeight(docs: seq<Doc>): string -> real {
    t => TotalCount(docs, t) as real
  }

  function GotWeight(totals: map<string, nat>): string -> real {
    t => Got(totals, t) as real
  }

  lemma SameHeaviest(terms: seq<string>, all: set<string>, w: string -> real, u: string -> real, dimension: nat)
    requires Heaviest(terms, all, w, dimension) && forall t :: w(t) == u(t)
    ensures Heaviest(terms, all, u, dimension)
  {
  }

  lemma SameChoice(totals: map<string, nat>, corpus: seq<Doc>, chosen: seq<string>, dimension: nat)
    requires Totals(totals, corpus) && Heaviest(chosen, totals.Keys, GotWeight(totals), dimension)
    ensures Heaviest(chosen, TermsOf(corpus), TotalWeight(corpus), dimension)
    ensures Tracks(chosen, dimension, corpus)
  {
    assert totals.Keys == TermsOf(corpus);
    assert forall t :: GotWeight(totals)(t) == TotalWeight(corpus)(t);
    SameHeaviest(chosen, TermsOf(corpus), GotWeight(totals), TotalWeight(corpus), dimension);
    HeaviestTracks(chosen, corpus, TotalWeight(corpus), dimension);
  }

  method Normalize(sqrt: real -> real, v: seq<real>) returns (r: seq<real>)
    ensures r == Unit(sqrt, v)
  {
    var norm := Norm(sqrt, v);
    if norm > 0.0 {
      return Divide(v, norm);
    }
    return v;
  }

  /** Bag of words, and character n-grams: a coordinate counts its term. */
  class TermCounter {
    const dimension: nat
    var vocabulary: map<string, nat>
    ghost var terms: seq<string>
    ghost var seen: seq<Doc>

    /** `seen` are the documents since and including the last fit. */
    ghost predicate Valid()
      reads this
    {
      vocabulary == IndexOf(terms) && Tracks(terms, dimension, seen)
    }

    constructor (dimension: nat)
      ensures Valid() && this.dimension == dimension && seen == [] && terms == []
    {
      this.dimension := dimension;
      vocabulary, terms, seen := map[], [], [];
    }

    method Fit(corpus: seq<Doc>)
      modifies this
      ensures Valid() && seen == corpus
      ensures Heaviest(terms, TermsOf(corpus), TotalWeight(corpus), dimension)
    {
      var totals, _ := Tally(corpus);
      var chosen := ChooseTerms(totals.Keys, GotWeight(totals), dimension);
      SameChoice(totals, corpus, chosen, dimension);
      vocabulary := Number(chosen);
      terms, seen := chosen, corpus;
    }

    method AddDocument(doc: Doc)
      requires Valid()
      modifies this
      ensures Valid() && seen == old(seen) + [doc]
      ensures GrewBy(old(terms), terms, dimension, doc)
    {
      var unique := SortedOnce(doc);
      GrowingTracks(terms, dimension, seen, doc, unique);
      vocabulary := Append(vocabulary, dimension, unique, terms);
      terms, seen := Grown(terms, dimension, unique), seen + [doc];
    }

    ghost function Embedding(sqrt: real -> real, doc: Doc): seq<real>
      reads this
    {
      Unit(sqrt, Coordinates(terms, dimension, CountWeight(doc)))
    }

    method Embed(sqrt: real -> real, doc: Doc) returns (v: seq<real>)
      requires Valid()
      ensures v == Embedding(sqrt, doc)
    {
      IndexOfIs(terms);
      v := seq(dimension, _ => 0.0);
      for i := 0 to |doc|
        invariant v == Coordinates(terms, dimension, CountWeight(doc[..i]))
      {
        assert doc[..i + 1] == doc[..i] + [doc[i]];
        if doc[i] !in vocabulary {
          OneMoreOutside(terms, dimension, doc[..i], doc[i]);
        } else {
          ghost var j := PlaceOf(terms, doc[i]);
          OneMoreInside(terms, dimension, doc[..i], doc[i], j);
          v := v[vocabulary[doc[i]] := v[vocabulary[doc[i]]] + 1.0];
        }
      }
      assert doc[..|doc|] == doc;
      v := Normalize(sqrt, v);
    }
  }

  /** An embedding has unit length or is zero, a coordinate is positive exactly when the
      document has its term, and coordinates are in the ratio of the occurrences. */
  lemma EmbeddingMeans(e: TermCounter, sqrt: real -> real, doc: Doc, t: string, u: string)
    requires e.Valid() && SqrtLaw(sqrt) && t in e.vocabulary && u in e.vocabulary
    ensures var v := e.Embedding(sqrt, doc);
      && |v| == e.dimension && e.vocabulary[t] < |v| && e.vocabulary[u] < |v|
      && (Dot(v, v) == 1.0 || IsZero(v))
      && v[e.vocabulary[t]] >= 0.0 && (v[e.vocabulary[t]] > 0.0 <==> t in doc)
      && (Count(doc, t) > Count(doc, u) ==> v[e.vocabulary[t]] > v[e.vocabulary[u]])
      && Times(Count(doc, t) as real, v[e.vocabulary[u]]) == Times(Count(doc, u) as real, v[e.vocabulary[t]])
  {
    var w := CountWeight(doc);
    IndexOfIs(e.terms);
    UnitLength(sqrt, Coordinates(e.terms, e.dimension, w));
    assert w(t) == Count(doc, t) as real && w(u) == Count(doc, u) as real;
    assert Count(doc, t) > 0 <==> t in doc;
    hide CountWeight, SqrtLaw, Count, Times;
    HeavierIsLarger(sqrt, e.terms, e.dimension, w, t, u);
    RatioOfWeights(sqrt, e.terms, e.dimension, w, t, u);
  }

  ghost predicate Ahead(corpus: seq<Doc>, t: string, o: string) {
    || TotalCount(corpus, t) > TotalCount(corpus, o)
    || (TotalCount(corpus, t) == TotalCount(corpus, o) && StrLeq(t, o))
  }

  /** A fit keeps the most frequent terms of the corpus, in the order of their numbers of
      occurrences and of their bytes where these are the same. */
  lemma FitKeepsFrequent(terms: seq<string>, corpus: seq<Doc>, dimension: nat)
    requires Heaviest(terms, TermsOf(corpus), TotalWeight(corpus), dimension)
    ensures forall t, o :: t in terms && o in TermsOf(corpus) && o !in terms ==> Ahead(corpus, t, o)
    ensures forall i, j :: 0 <= i < j < |terms| ==> Ahead(corpus, terms[i], terms[j])
  {
    var w := TotalWeight(corpus);
    forall a: string, b: string ensures Heavier((a, w(a)), (b, w(b))) <==> Ahead(corpus, a, b) {
    }
    hide Heavier, TotalWeight, TermsOf, Ahead;
  }

  lemma SameWeights(terms: seq<string>, dimension: nat, w: string -> real, u: string -> real)
    requires forall t :: t in terms ==> w(t) == u(t)
    ensures Coordinates(terms, dimension, w) == Coordinates(terms, dimension, u)
  {
    var a, b := Coordinates(terms, dimension, w), Coordinates(terms, dimension, u);
    forall i | 0 <= i < dimension ensures a[i] == b[i] {
      assert i < |terms| ==> terms[i] in terms;
    }
  }

  lemma OneWeight(terms: seq<string>, dimension: nat, w: string -> real, u: string -> real, j: nat)
    requires Distinct(terms) && j < |terms| <= dimension
    requires forall t :: t in terms && t != terms[j] ==> w(t) == u(t)
    ensures Coordinates(terms, dimension, u) == Coordinates(terms, dimension, w)[j := u(terms[j])]
  {
    var a, b := Coordinates(terms, dimension, w), Coordinates(terms, dimension, u);
    forall i | 0 <= i < dimension ensures b[i] == a[j := u(terms[j])][i] {
      assert i < |terms| ==> terms[i] in terms;
    }
  }

  lemma CountMore(doc: Doc, t: string, s: string)
    ensures CountWeight(doc + [t])(s) == CountWeight(doc)(s) + if s == t then 1.0 else 0.0
  {
  }

  lemma PlaceOf(terms: seq<string>, t: string) returns (j: nat)
    requires Distinct(terms) && t in terms
    ensures j < |terms| && terms[j] == t
    ensures t in IndexOf(terms) && IndexOf(terms)[t] == j
  {
    IndexOfIs(terms);
    j :| 0 <= j < |terms| && terms[j] == t;
  }

  /** Counting one more occurrence of a term changes its coordinate alone. */
  lemma OneMoreInside(terms: seq<string>, dimension: nat, doc: Doc, t: string, j: nat)
    requires Distinct(terms) && j < |terms| <= dimension && terms[j] == t
    ensures var v := Coordinates(terms, dimension, CountWeight(doc));
      Coordinates(terms, dimension, CountWeight(doc + [t])) == v[j := v[j] + 1.0]
  {
    var w, u := CountWeight(doc), CountWeight(doc + [t]);
    forall s ensures u(s) == w(s) + if s == t then 1.0 else 0.0 {
      CountMore(doc, t, s);
    }
    hide CountWeight;
    OneWeight(terms, dimension, w, u, j);
    assert Coordinates(terms, dimension, w)[j] == w(t);
  }

  lemma OneMoreOutside(terms: seq<string>, dimension: nat, doc: Doc, t: string)
    requires t !in terms
    ensures Coordinates(terms, dimension, CountWeight(doc + [t])) == Coordinates(terms, dimension, CountWeight(doc))
  {
    var w, u := CountWeight(doc), CountWeight(doc + [t]);
    forall s | s in terms ensures w(s) == u(s) {
      CountMore(doc, t, s);
    }
    hide *;
    SameWeights(terms, dimension, w, u);
  }

  /** An embedding being filled in: the terms in `rest` are still to come. */
  ghost predicate Filled(v: seq<real>, terms: seq<string>, dimension: nat, rest: set<string>, w: string -> real) {
    && |v| == dimension
    && forall i :: 0 <= i < dimension ==> v[i] == if i < |terms| && terms[i] !in rest then w(terms[i]) else 0.0
  }

  lemma FillOne(
    v: seq<real>, terms: seq<string>, dimension: nat, rest: set<string>, w: string -> real, t: string)
    requires Distinct(terms) && |terms| <= dimension && Filled(v, terms, dimension, rest, w)
    requires t in rest && t in terms
    ensures t in IndexOf(terms) && IndexOf(terms)[t] < dimension
    ensures Filled(v[IndexOf(terms)[t] := w(t)], terms, dimension, rest - {t}, w)
    ensures w(t) == 0.0 ==> Filled(v, terms, dimension, rest - {t}, w)
  {
    var j := PlaceOf(terms, t);
  }

  lemma FillNone(
    v: seq<real>, terms: seq<string>, dimension: nat, rest: set<string>, w: string -> real, t: string)
    requires t !in terms && Filled(v, terms, dimension, rest, w)
    ensures Filled(v, terms, dimension, rest - {t}, w)
  {
    forall i | 0 <= i < |terms| ensures terms[i] != t {
    }
  }

  lemma FilledIs(v: seq<real>, terms: seq<string>, dimension: nat, w: string -> real)
    requires Filled(v, terms, dimension, {}, w)
    ensures v == Coordinates(terms, dimension, w)
  {
  }

  /** Where every term fits, adding documents one by one and fitting on all of
      them give every pair of texts the same similarity, and every text the same
      coordinate at each term's place. */
  lemma CountersAgree(a: TermCounter, b: TermCounter, sqrt: real -> real, x: Doc, y: Doc)
    requires a.Valid() && b.Valid() && a.seen == b.seen && a.dimension == b.dimension
    requires |TermsOf(a.seen)| <= a.dimension
    ensures Dot(a.Embedding(sqrt, x), a.Embedding(sqrt, y)) == Dot(b.Embedding(sqrt, x), b.Embedding(sqrt, y))
    ensures a.vocabulary.Keys == b.vocabulary.Keys
    ensures forall t :: t in a.vocabulary ==>
      && a.vocabulary[t] < a.dimension && b.vocabulary[t] < a.dimension
      && a.Embedding(sqrt, x)[a.vocabulary[t]] == b.Embedding(sqrt, x)[b.vocabulary[t]]
  {
    SameMembers(a.terms, b.terms, a.dimension, a.seen);
    SameSimilarity(a.terms, b.terms, a.dimension, sqrt, CountWeight(x), CountWeight(y));
    SamePlaces(a.terms, b.terms, a.dimension, sqrt, CountWeight(x));
  }

  /** Where they do not all fit it matters: with room for one term, "a" seen first
      keeps the place that a fit gives to the more frequent "b". */
  lemma FirstComeIsNotBest(incremental: seq<string>, fitted: seq<string>)
    requires GrewBy(["a"], incremental, 1, ["b", "b"])
    requires Heaviest(fitted, TermsOf([["a"], ["b", "b"]]), TotalWeight([["a"], ["b", "b"]]), 1)
    ensures Tracks(["a"], 1, [["a"]]) && Tracks(incremental, 1, [["a"], ["b", "b"]])
    ensures incremental == ["a"] && fitted == ["b"]
    ensures Coordinates(incremental, 1, CountWeight(["b"])) == [0.0]
    ensures Coordinates(fitted, 1, CountWeight(["b"])) == [1.0]
  {
    TwoDocuments();
    hide TermsOf, TotalCount;
    var unique :| Distinct(unique) && (forall t :: t in unique <==> t in ["b", "b"])
      && incremental == Grown(["a"], 1, unique);
    GrowingTracks(["a"], 1, [["a"]], ["b", "b"], unique);
    assert [["a"]] + [["b", "b"]] == [["a"], ["b", "b"]];
    assert Tracks(["a"], 1, [["a"]]) && Tracks(incremental, 1, [["a"], ["b", "b"]]);
    GrownExtends(["a"], 1, unique);
    assert incremental[0] == "a";
    hide Grown, Tracks, GrewBy;
    assert |fitted| == 1 && fitted[0] in fitted;
    var w := TotalWeight([["a"], ["b", "b"]]);
    assert !Heavier(("a", w("a")), ("b", w("b")));
    assert "b" in fitted;
  }

  lemma TwoDocuments()
    ensures TermsOf([["a"]]) == {"a"} && TermsOf([["a"], ["b", "b"]]) == {"a", "b"}
    ensures TotalCount([["a"], ["b", "b"]], "a") == 1 && TotalCount([["a"], ["b", "b"]], "b") == 2
  {
    assert [["a"]] + [["b", "b"]] == [["a"], ["b", "b"]] && [] + [["a"]] == [["a"]];
    Snoc([], ["a"], "a");
    Snoc([], ["a"], "b");
    Snoc([["a"]], ["b", "b"], "a");
    Snoc([["a"]], ["b", "b"], "b");
  }

  lemma SamePlaces(a: seq<string>, b: seq<string>, dimension: nat, sqrt: real -> real, w: string -> real)
    requires Distinct(a) && Distinct(b) && multiset(a) == multiset(b) && |a| <= dimension
    ensures IndexOf(a).Keys == IndexOf(b).Keys
    ensures forall t :: t in IndexOf(a) ==>
      && IndexOf(a)[t] < dimension && IndexOf(b)[t] < dimension
      && Unit(sqrt, Coordinates(a, dimension, w))[IndexOf(a)[t]] ==
        Unit(sqrt, Coordinates(b, dimension, w))[IndexOf(b)[t]]
  {
    IndexOfIs(a);
    IndexOfIs(b);
    forall t ensures t in a <==> t in b {
      assert t in a <==> t in multiset(a);
      assert t in b <==> t in multiset(b);
    }
    forall t | t in IndexOf(a)
      ensures IndexOf(a)[t] < dimension && t in IndexOf(b) && IndexOf(b)[t] < dimension
      ensures Unit(sqrt, Coordinates(a, dimension, w))[IndexOf(a)[t]] ==
        Unit(sqrt, Coordinates(b, dimension, w))[IndexOf(b)[t]]
    {
      SameCoordinates(a, b, dimension, sqrt, w, t);
    }
  }
}
