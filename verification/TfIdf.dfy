/** The TF-IDF embedder (crates/veclite/src/embedding/tfidf.rs): document
    frequencies of all terms, and one refreshed weight per vocabulary term. */
module TfIdf {
  import opened Core
  import opened Linear
  import opened Vocabulary
  import opened Words
  import opened Embedders

  /** `ln(n / df)`, at least 0. */
  function Idf(ln: real -> real, n: nat, df: nat): real {
    if df == 0 then 0.0
    else
      var x := ln(n as real / df as real);
      if x > 0.0 then x else 0.0
  }

  /** What decides a place in a fitted vocabulary. */
  function RankWeight(ln: real -> real, docs: seq<Doc>): string -> real {
    t => Times(TotalCount(docs, t) as real, Idf(ln, |docs|, DocFreq(docs, t)))
  }

  function GotRank(ln: real -> real, n: nat, totals: map<string, nat>, frequencies: map<string, nat>): string -> real {
    t => Times(Got(totals, t) as real, Idf(ln, n, Got(frequencies, t)))
  }

  /** A term's share of a document times its `idf`. */
  function TfTimesIdf(tf: nat, length: nat, idf: real): real
    requires tf > 0 ==> length > 0
  {
    if tf == 0 then 0.0 else Times(tf as real / length as real, idf)
  }

  lemma CountBound(doc: Doc, t: string)
    ensures Count(doc, t) > 0 ==> |doc| > 0
  {
  }

  /** What a term weighs in `doc` over the documents seen so far. */
  function WeightOf(ln: real -> real, seen: seq<Doc>, doc: Doc, t: string): real {
    CountBound(doc, t);
    if Count(doc, t) == 0 then 0.0 else TfTimesIdf(Count(doc, t), |doc|, Idf(ln, |seen|, DocFreq(seen, t)))
  }

  function TfIdfWeight(ln: real -> real, seen: seq<Doc>, doc: Doc): string -> real {
    t => WeightOf(ln, seen, doc, t)
  }

  /** One weight per term of the vocabulary; those in `rest` are out of date. */
  ghost predicate Weights(
    idf: seq<real>, ln: real -> real, terms: seq<string>, seen: seq<Doc>, rest: set<string>)
  {
    && |idf| == |terms|
    && forall i :: 0 <= i < |terms| && terms[i] !in rest ==> idf[i] == Idf(ln, |seen|, DocFreq(seen, terms[i]))
  }

  lemma Refreshed(
    idf: seq<real>, ln: real -> real, terms: seq<string>, seen: seq<Doc>, rest: set<string>, t: string)
    requires Distinct(terms) && t in terms && Weights(idf, ln, terms, seen, rest)
    ensures t in IndexOf(terms) && IndexOf(terms)[t] < |idf|
    ensures Weights(idf[IndexOf(terms)[t] := Idf(ln, |seen|, DocFreq(seen, t))], ln, terms, seen, rest - {t})
  {
    var j := PlaceOf(terms, t);
    hide Idf, DocFreq;
  }

  /** The frequencies while a document is folded in: `done` are its terms so far. */
  ghost predicate Rising(m: map<string, nat>, seen: seq<Doc>, done: seq<string>) {
    forall t :: Got(m, t) == DocFreq(seen, t) + (if t in done then 1 else 0)
      && (t in m <==> t in TermsOf(seen) || t in done)
  }

  lemma RiseStep(m: map<string, nat>, seen: seq<Doc>, unique: seq<string>, i: nat)
    requires i < |unique| && Distinct(unique) && Rising(m, seen, unique[..i])
    ensures Rising(m[unique[i] := Got(m, unique[i]) + 1], seen, unique[..i + 1])
  {
    assert unique[..i + 1] == unique[..i] + [unique[i]];
    assert unique[i] !in unique[..i];
    hide DocFreq, TermsOf;
  }

  lemma RiseDone(m: map<string, nat>, seen: seq<Doc>, doc: Doc, unique: seq<string>)
    requires Rising(m, seen, unique) && forall t :: t in unique <==> t in doc
    ensures Frequencies(m, seen + [doc])
  {
    forall t ensures Got(m, t) == DocFreq(seen + [doc], t) && (t in m <==> t in TermsOf(seen + [doc])) {
      Snoc(seen, doc, t);
    }
  }

  class TfIdf {
    const dimension: nat
    const ln: real -> real
    var vocabulary: map<string, nat>
    var idfWeights: seq<real>
    var docFrequencies: map<string, nat>
    var totalDocs: nat
    ghost var terms: seq<string>
    ghost var seen: seq<Doc>

    /** `seen` are the documents since and including the last fit. */
    ghost predicate Valid()
      reads this
    {
      && vocabulary == IndexOf(terms) && Tracks(terms, dimension, seen)
      && Frequencies(docFrequencies, seen) && totalDocs == |seen|
      && Weights(idfWeights, ln, terms, seen, {})
    }

    constructor (dimension: nat, ln: real -> real)
      ensures Valid() && this.dimension == dimension && this.ln == ln && seen == [] && terms == []
    {
      this.dimension, this.ln := dimension, ln;
      vocabulary, idfWeights, docFrequencies, totalDocs := map[], [], map[], 0;
      terms, seen := [], [];
    }

    method Fit(corpus: seq<Doc>)
      modifies this
      ensures Valid() && seen == corpus
      ensures Heaviest(terms, TermsOf(corpus), RankWeight(ln, corpus), dimension)
    {
      var totals, frequencies := Tally(corpus);
      var chosen := ChooseTerms(frequencies.Keys, GotRank(ln, |corpus|, totals, frequencies), dimension);
      SameRank(ln, totals, frequencies, corpus, chosen, dimension);
      vocabulary := Number(chosen);
      idfWeights := WeighAll(ln, chosen, frequencies, corpus);
      docFrequencies, totalDocs := frequencies, |corpus|;
      terms, seen := chosen, corpus;
    }

    /** Fold one document in: the frequencies stay exact, every known term's weight
        is refreshed, and no term of the vocabulary moves. */
    method AddDocument(doc: Doc)
      requires Valid()
      modifies this
      ensures Valid() && seen == old(seen) + [doc]
      ensures GrewBy(old(terms), terms, dimension, doc)
    {
      totalDocs := totalDocs + 1;
      var unique := SortedOnce(doc);
      for i := 0 to |unique|
        invariant vocabulary == IndexOf(Grown(terms, dimension, unique[..i]))
        invariant Rising(docFrequencies, seen, unique[..i])
        invariant |idfWeights| == |Grown(terms, dimension, unique[..i])|
        invariant totalDocs == |seen| + 1 && terms == old(terms) && seen == old(seen)
      {
        FoldOne(unique, i);
      }
      assert unique[..|unique|] == unique;
      GrowingTracks(terms, dimension, seen, doc, unique);
      RiseDone(docFrequencies, seen, doc, unique);
      terms, seen := Grown(terms, dimension, unique), seen + [doc];
      Refresh();
    }

    method FoldOne(unique: seq<string>, i: nat)
      requires i < |unique| && Distinct(unique) && Tracks(terms, dimension, seen)
      requires vocabulary == IndexOf(Grown(terms, dimension, unique[..i]))
      requires Rising(docFrequencies, seen, unique[..i])
      requires |idfWeights| == |Grown(terms, dimension, unique[..i])|
      modifies this`vocabulary, this`docFrequencies, this`idfWeights
      ensures vocabulary == IndexOf(Grown(terms, dimension, unique[..i + 1]))
      ensures Rising(docFrequencies, seen, unique[..i + 1])
      ensures |idfWeights| == |Grown(terms, dimension, unique[..i + 1])|
    {
      assert Distinct(terms) && |terms| <= dimension;
      hide *;
      RiseStep(docFrequencies, seen, unique, i);
      docFrequencies := docFrequencies[unique[i] := Got(docFrequencies, unique[i]) + 1];
      JoinOne(unique, i);
    }

    method JoinOne(unique: seq<string>, i: nat)
      requires i < |unique| && Distinct(terms) && |terms| <= dimension
      requires vocabulary == IndexOf(Grown(terms, dimension, unique[..i]))
      requires |idfWeights| == |Grown(terms, dimension, unique[..i])|
      modifies this`vocabulary, this`idfWeights
      ensures vocabulary == IndexOf(Grown(terms, dimension, unique[..i + 1]))
      ensures |idfWeights| == |Grown(terms, dimension, unique[..i + 1])|
    {
      AppendStep(terms, dimension, unique, i);
      hide *;
      if unique[i] !in vocabulary && |vocabulary| < dimension {
        vocabulary := vocabulary[unique[i] := |vocabulary|];
        idfWeights := idfWeights + [0.0];
      }
    }

    /** Bring every weight up to date. */
    method Refresh()
      requires vocabulary == IndexOf(terms) && Tracks(terms, dimension, seen)
      requires Frequencies(docFrequencies, seen) && totalDocs == |seen| && |idfWeights| == |terms|
      modifies this`idfWeights
      ensures Valid()
    {
      IndexOfIs(terms);
      var rest := vocabulary.Keys;
      while rest != {}
        invariant rest <= vocabulary.Keys && Weights(idfWeights, ln, terms, seen, rest)
        decreases |rest|
      {
        var word :| word in rest;
        Refreshed(idfWeights, ln, terms, seen, rest, word);
        if word in docFrequencies && vocabulary[word] < |idfWeights| {
          idfWeights := idfWeights[vocabulary[word] := Idf(ln, totalDocs, docFrequencies[word])];
        }
        rest := rest - {word};
      }
    }

    ghost function Embedding(sqrt: real -> real, doc: Doc): seq<real>
      reads this
    {
      Unit(sqrt, Coordinates(terms, dimension, TfIdfWeight(ln, seen, doc)))
    }

    method Embed(sqrt: real -> real, doc: Doc) returns (v: seq<real>)
      requires Valid()
      ensures v == Embedding(sqrt, doc)
    {
      var tf := CountTokens(doc);
      v := seq(dimension, _ => 0.0);
      ghost var weight := TfIdfWeight(ln, seen, doc);
      NothingFilled(v, terms, dimension, tf, ln, seen, doc);
      var rest := tf.Keys;
      while rest != {}
        invariant rest <= tf.Keys && Filled(v, terms, dimension, rest, weight)
        decreases |rest|
      {
        var word :| word in rest;
        v := WeighOne(v, doc, tf, word, rest);
        rest := rest - {word};
      }
      FilledIs(v, terms, dimension, weight);
      v := Normalize(sqrt, v);
    }

    method WeighOne(v: seq<real>, doc: Doc, tf: map<string, nat>, word: string, ghost rest: set<string>)
      returns (r: seq<real>)
      requires Valid() && Counts(tf, doc) && word in tf && word in rest
      requires Filled(v, terms, dimension, rest, TfIdfWeight(ln, seen, doc))
      ensures Filled(r, terms, dimension, rest - {word}, TfIdfWeight(ln, seen, doc))
    {
      ghost var weight := TfIdfWeight(ln, seen, doc);
      WeightIs(ln, seen, doc, tf, word);
      assert |v| == dimension;
      hide TfIdfWeight, Filled, Counts, Idf, TfTimesIdf, DocFreq;
      r := v;
      if word in vocabulary {
        WordKnown(terms, word);
        ghost var j := PlaceOf(terms, word);
        FillOne(v, terms, dimension, rest, weight, word);
        var weighed := TfTimesIdf(tf[word], |doc|, idfWeights[vocabulary[word]]);
        r := v[vocabulary[word] := weighed];
      } else {
        WordKnown(terms, word);
        FillNone(v, terms, dimension, rest, weight, word);
      }
    }
  }

  lemma WordKnown(terms: seq<string>, t: string)
    requires Distinct(terms)
    ensures t in IndexOf(terms) <==> t in terms
  {
    IndexOfIs(terms);
  }

  lemma NothingFilled(
    v: seq<real>, terms: seq<string>, dimension: nat, tf: map<string, nat>, ln: real -> real, seen: seq<Doc>, doc: Doc)
    requires Counts(tf, doc) && |v| == dimension && forall i :: 0 <= i < dimension ==> v[i] == 0.0
    ensures Filled(v, terms, dimension, tf.Keys, TfIdfWeight(ln, seen, doc))
  {
    forall t | t !in tf ensures TfIdfWeight(ln, seen, doc)(t) == 0.0 {
      assert Got(tf, t) == Count(doc, t);
    }
  }

  lemma WeightIs(ln: real -> real, seen: seq<Doc>, doc: Doc, tf: map<string, nat>, t: string)
    requires Counts(tf, doc) && t in tf
    ensures |doc| > 0
    ensures TfIdfWeight(ln, seen, doc)(t) == TfTimesIdf(tf[t], |doc|, Idf(ln, |seen|, DocFreq(seen, t)))
  {
    assert Got(tf, t) == Count(doc, t);
  }

  lemma RankIs(
    ln: real -> real, totals: map<string, nat>, frequencies: map<string, nat>, corpus: seq<Doc>, t: string)
    requires Totals(totals, corpus) && Frequencies(frequencies, corpus)
    ensures GotRank(ln, |corpus|, totals, frequencies)(t) == RankWeight(ln, corpus)(t)
  {
    assert Got(totals, t) == TotalCount(corpus, t) && Got(frequencies, t) == DocFreq(corpus, t);
  }

  lemma SameRank(
    ln: real -> real, totals: map<string, nat>, frequencies: map<string, nat>, corpus: seq<Doc>, chosen: seq<string>,
    dimension: nat)
    requires Totals(totals, corpus) && Frequencies(frequencies, corpus)
    requires Heaviest(chosen, frequencies.Keys, GotRank(ln, |corpus|, totals, frequencies), dimension)
    ensures Heaviest(chosen, TermsOf(corpus), RankWeight(ln, corpus), dimension)
    ensures Tracks(chosen, dimension, corpus)
  {
    assert frequencies.Keys == TermsOf(corpus);
    var w, u := GotRank(ln, |corpus|, totals, frequencies), RankWeight(ln, corpus);
    forall t ensures w(t) == u(t) {
      RankIs(ln, totals, frequencies, corpus, t);
    }
    hide GotRank, RankWeight, TermsOf;
    SameHeaviest(chosen, TermsOf(corpus), w, u, dimension);
    HeaviestTracks(chosen, corpus, u, dimension);
  }

  method WeighAll(ln: real -> real, chosen: seq<string>, frequencies: map<string, nat>, corpus: seq<Doc>)
    returns (idf: seq<real>)
    requires Frequencies(frequencies, corpus) && forall t :: t in chosen ==> t in TermsOf(corpus)
    ensures Weights(idf, ln, chosen, corpus, {})
  {
    idf := [];
    for i := 0 to |chosen|
      invariant Weights(idf, ln, chosen[..i], corpus, {})
    {
      assert chosen[i] in chosen;
      idf := idf + [Idf(ln, |corpus|, if chosen[i] in frequencies then frequencies[chosen[i]] else 1)];
    }
    assert chosen[..|chosen|] == chosen;
  }

  /** Where every term fits, folding documents in and fitting on all of them give
      every pair of texts the same similarity, and every text the same coordinate
      at each term's place. */
  lemma IncrementalIsBatch(a: TfIdf, b: TfIdf, sqrt: real -> real, x: Doc, y: Doc)
    requires a.Valid() && b.Valid() && a.seen == b.seen && a.dimension == b.dimension && a.ln == b.ln
    requires |TermsOf(a.seen)| <= a.dimension
    ensures Dot(a.Embedding(sqrt, x), a.Embedding(sqrt, y)) == Dot(b.Embedding(sqrt, x), b.Embedding(sqrt, y))
    ensures a.docFrequencies == b.docFrequencies
    ensures a.vocabulary.Keys == b.vocabulary.Keys
    ensures forall t :: t in a.vocabulary ==>
      && a.vocabulary[t] < a.dimension && b.vocabulary[t] < a.dimension
      && a.Embedding(sqrt, x)[a.vocabulary[t]] == b.Embedding(sqrt, x)[b.vocabulary[t]]
  {
    SameMembers(a.terms, b.terms, a.dimension, a.seen);
    SameTables(a.docFrequencies, b.docFrequencies, a.seen);
    SameSimilarity(a.terms, b.terms, a.dimension, sqrt, TfIdfWeight(a.ln, a.seen, x), TfIdfWeight(a.ln, a.seen, y));
    SamePlaces(a.terms, b.terms, a.dimension, sqrt, TfIdfWeight(a.ln, a.seen, x));
  }

  lemma SameTables(a: map<string, nat>, b: map<string, nat>, seen: seq<Doc>)
    requires Frequencies(a, seen) && Frequencies(b, seen)
    ensures a == b
  {
    forall t ensures (t in a <==> t in b) && (t in a ==> a[t] == b[t]) {
      assert Got(a, t) == Got(b, t);
    }
  }

  // ----- what the weights say -----------------------------------------------

  /** A term in every document has no `idf`, a rarer one more of it. */
  lemma IdfOrder(ln: real -> real, n: nat, df: nat, ef: nat)
    requires LnLaw(ln) && 0 < df <= ef <= n
    ensures Idf(ln, n, df) >= 0.0 && (Idf(ln, n, df) == 0.0 <==> df == n)
    ensures df < ef ==> Idf(ln, n, df) > Idf(ln, n, ef)
  {
    AtLeastOne(n, df);
    AtLeastOne(n, ef);
    if df < ef {
      FractionFalls(n as real, df as real, ef as real);
    }
  }

  lemma AtLeastOne(n: nat, df: nat)
    requires 0 < df <= n
    ensures n as real / df as real >= 1.0 && (n as real / df as real == 1.0 <==> df == n)
  {
    if df < n {
      FractionLess(1.0, n as real, 1.0, df as real);
    }
  }

  lemma ShareOrder(tf: nat, more: nat, length: nat, longer: nat)
    requires 0 < tf <= more && 0 < length <= longer
    ensures tf as real / length as real > 0.0
    ensures tf < more ==> (tf as real / length as real) < more as real / length as real
    ensures length < longer ==> tf as real / length as real > tf as real / longer as real
  {
    FractionPositive(tf as real, length as real);
    if tf < more {
      FractionOrder(tf as real, more as real, length as real);
    }
    if length < longer {
      FractionFalls(tf as real, length as real, longer as real);
    }
  }

  /** The share of a document times the `idf`: more of either is more. */
  lemma ShareGrows(tf: nat, more: nat, length: nat, longer: nat, idf: real, other: real)
    requires 0 < tf <= more && 0 < length <= longer && 0.0 <= idf <= other
    ensures TfTimesIdf(tf, length, idf) >= 0.0 && (TfTimesIdf(tf, length, idf) > 0.0 <==> idf > 0.0)
    ensures idf < other ==> TfTimesIdf(tf, length, idf) < TfTimesIdf(tf, length, other)
    ensures idf > 0.0 && tf < more ==> TfTimesIdf(tf, length, idf) < TfTimesIdf(more, length, idf)
    ensures idf > 0.0 && length < longer ==> TfTimesIdf(tf, length, idf) > TfTimesIdf(tf, longer, idf)
  {
    ShareOrder(tf, more, length, longer);
    ShareOrder(tf, tf, longer, longer);
    var share, larger, smaller := tf as real / length as real, more as real / length as real,
      tf as real / longer as real;
    hide Times;
    TimesGrows(share, share, idf, other);
    TimesGrows(share, if tf < more then larger else share, idf, idf);
    TimesGrows(smaller, if length < longer then share else smaller, idf, idf);
  }

  lemma WeightIsShare(ln: real -> real, seen: seq<Doc>, doc: Doc, t: string)
    requires t in doc && t in TermsOf(seen)
    ensures 0 < Count(doc, t) && |doc| > 0 && 0 < DocFreq(seen, t) <= |seen|
    ensures WeightOf(ln, seen, doc, t) == TfTimesIdf(Count(doc, t), |doc|, Idf(ln, |seen|, DocFreq(seen, t)))
  {
    OccursIff(seen, t);
    FrequencyBound(seen, t);
    CountBound(doc, t);
    hide TfTimesIdf, Idf;
  }

  /** A term of the document weighs something unless every document seen has it. */
  lemma PresentWeighs(ln: real -> real, seen: seq<Doc>, doc: Doc, t: string)
    requires LnLaw(ln) && t in TermsOf(seen)
    ensures WeightOf(ln, seen, doc, t) >= 0.0
    ensures WeightOf(ln, seen, doc, t) > 0.0 <==> t in doc && DocFreq(seen, t) < |seen|
  {
    if t in doc {
      hide *;
      WeightIsShare(ln, seen, doc, t);
      IdfOrder(ln, |seen|, DocFreq(seen, t), DocFreq(seen, t));
      var idf := Idf(ln, |seen|, DocFreq(seen, t));
      ShareGrows(Count(doc, t), Count(doc, t), |doc|, |doc|, idf, idf);
    }
  }

  /** Of two terms as frequent in the document the rarer one weighs more. */
  lemma RarerWeighsMore(ln: real -> real, seen: seq<Doc>, doc: Doc, t: string, u: string)
    requires LnLaw(ln) && t in TermsOf(seen) && u in TermsOf(seen) && DocFreq(seen, t) < DocFreq(seen, u)
    requires t in doc && u in doc && Count(doc, t) == Count(doc, u)
    ensures WeightOf(ln, seen, doc, t) > WeightOf(ln, seen, doc, u)
  {
    hide *;
    WeightIsShare(ln, seen, doc, t);
    WeightIsShare(ln, seen, doc, u);
    IdfOrder(ln, |seen|, DocFreq(seen, t), DocFreq(seen, u));
    IdfOrder(ln, |seen|, DocFreq(seen, u), DocFreq(seen, u));
    ShareGrows(Count(doc, t), Count(doc, t), |doc|, |doc|, Idf(ln, |seen|, DocFreq(seen, u)),
               Idf(ln, |seen|, DocFreq(seen, t)));
  }

  /** A larger share of the document weighs more: more occurrences in a document of the
      same length, or as many in a shorter one. */
  lemma ShareWeighs(ln: real -> real, seen: seq<Doc>, x: Doc, y: Doc, t: string)
    requires LnLaw(ln) && t in TermsOf(seen) && DocFreq(seen, t) < |seen| && t in x && t in y
    ensures |x| == |y| && Count(x, t) < Count(y, t) ==> WeightOf(ln, seen, x, t) < WeightOf(ln, seen, y, t)
    ensures Count(x, t) == Count(y, t) && |x| < |y| ==> WeightOf(ln, seen, x, t) > WeightOf(ln, seen, y, t)
  {
    hide *;
    WeightIsShare(ln, seen, x, t);
    WeightIsShare(ln, seen, y, t);
    IdfOrder(ln, |seen|, DocFreq(seen, t), DocFreq(seen, t));
    if Count(x, t) <= Count(y, t) && |x| <= |y| {
      var idf := Idf(ln, |seen|, DocFreq(seen, t));
      ShareGrows(Count(x, t), Count(y, t), |x|, |y|, idf, idf);
    }
  }

  /** An embedding has unit length or is zero; its coordinate at a term is positive
      exactly when the document has the term and not every document seen does; and of
      two terms as frequent in the document the rarer one has the larger coordinate. */
  lemma EmbeddingMeans(e: TfIdf, sqrt: real -> real, doc: Doc, t: string, u: string)
    requires e.Valid() && SqrtLaw(sqrt) && LnLaw(e.ln) && t in e.vocabulary && u in e.vocabulary
    ensures var v := e.Embedding(sqrt, doc);
      && |v| == e.dimension && e.vocabulary[t] < |v| && e.vocabulary[u] < |v|
      && (Dot(v, v) == 1.0 || IsZero(v))
      && v[e.vocabulary[t]] >= 0.0 && (v[e.vocabulary[t]] > 0.0 <==> t in doc && DocFreq(e.seen, t) < |e.seen|)
      && (t in doc && u in doc && Count(doc, t) == Count(doc, u) && DocFreq(e.seen, t) < DocFreq(e.seen, u) ==>
            v[e.vocabulary[t]] > v[e.vocabulary[u]])
  {
    var w := TfIdfWeight(e.ln, e.seen, doc);
    IndexOfIs(e.terms);
    UnitLength(sqrt, Coordinates(e.terms, e.dimension, w));
    PresentWeighs(e.ln, e.seen, doc, t);
    if t in doc && u in doc && Count(doc, t) == Count(doc, u) && DocFreq(e.seen, t) < DocFreq(e.seen, u) {
      RarerWeighsMore(e.ln, e.seen, doc, t, u);
    }
    hide WeightOf, SqrtLaw, LnLaw;
    HeavierIsLarger(sqrt, e.terms, e.dimension, w, t, u);
  }

  /** Concrete weights: with "a" in both of two documents and "b" in one, the text "a b"
      gets half of `ln 2` for "b" and nothing for "a". */
  lemma RareExample(ln: real -> real)
    requires LnLaw(ln)
    ensures var seen, doc := [["a", "b"], ["a"]], ["a", "b"];
      WeightOf(ln, seen, doc, "a") == 0.0 && WeightOf(ln, seen, doc, "b") == 0.5 * ln(2.0)
  {
    assert [["a", "b"]] + [["a"]] == [["a", "b"], ["a"]] && [] + [["a", "b"]] == [["a", "b"]];
    Snoc([], ["a", "b"], "a");
    Snoc([], ["a", "b"], "b");
    Snoc([["a", "b"]], ["a"], "a");
    Snoc([["a", "b"]], ["a"], "b");
    var seen := [["a", "b"], ["a"]];
    assert DocFreq(seen, "a") == 2 && DocFreq(seen, "b") == 1;
    IdfOrder(ln, 2, 2, 2);
    IdfOrder(ln, 2, 1, 1);
  }

  /** What a fit prefers: of terms as rare the more frequent one, and of terms as
      frequent the rarer one. */
  lemma FitPrefers(ln: real -> real, docs: seq<Doc>, t: string, u: string)
    requires LnLaw(ln) && t in TermsOf(docs) && u in TermsOf(docs)
    ensures DocFreq(docs, t) == DocFreq(docs, u) < |docs| && TotalCount(docs, t) > TotalCount(docs, u) ==>
      RankWeight(ln, docs)(t) > RankWeight(ln, docs)(u)
    ensures TotalCount(docs, t) == TotalCount(docs, u) > 0 && DocFreq(docs, t) < DocFreq(docs, u) ==>
      RankWeight(ln, docs)(t) > RankWeight(ln, docs)(u)
  {
    OccursIff(docs, t);
    OccursIff(docs, u);
    FrequencyBound(docs, t);
    FrequencyBound(docs, u);
    var p, q, a, b := Idf(ln, |docs|, DocFreq(docs, t)), Idf(ln, |docs|, DocFreq(docs, u)),
      TotalCount(docs, t) as real, TotalCount(docs, u) as real;
    assert RankWeight(ln, docs)(t) == Times(a, p) && RankWeight(ln, docs)(u) == Times(b, q);
    hide *;
    if DocFreq(docs, t) == DocFreq(docs, u) < |docs| && a > b {
      IdfOrder(ln, |docs|, DocFreq(docs, t), DocFreq(docs, t));
      TimesGrows(b, a, p, p);
    }
    if a == b > 0.0 && DocFreq(docs, t) < DocFreq(docs, u) {
      IdfOrder(ln, |docs|, DocFreq(docs, t), DocFreq(docs, u));
      IdfOrder(ln, |docs|, DocFreq(docs, u), DocFreq(docs, u));
      TimesGrows(a, a, q, p);
    }
  }
}
