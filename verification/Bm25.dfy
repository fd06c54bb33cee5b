/** The default embedder, BM25 (crates/veclite/src/embedding/bm25.rs). Its document
    statistics are exact in every reachable state, incremental or not, so an
    embedding depends on how the vocabulary came about only by the order of its
    coordinates. */
module Bm25 {
  import opened Core
  import opened Linear
  import opened Vocabulary
  import opened Words
  import opened Embedders

  const K1 := 1.5
  const B := 0.75

  function Lengths(docs: seq<Doc>): seq<nat> {
    if docs == [] then [] else Lengths(docs[..|docs| - 1]) + [|docs[|docs| - 1]|]
  }

  function SumOf(s: seq<nat>): nat {
    if s == [] then 0 else SumOf(s[..|s| - 1]) + s[|s| - 1]
  }

  lemma LengthsSnoc(docs: seq<Doc>, doc: Doc)
    ensures Lengths(docs + [doc]) == Lengths(docs) + [|doc|]
    ensures SumOf(Lengths(docs) + [|doc|]) == SumOf(Lengths(docs)) + |doc|
  {
    assert (docs + [doc])[..|docs|] == docs;
    assert (Lengths(docs) + [|doc|])[..|Lengths(docs)|] == Lengths(docs);
  }

  lemma {:induction false} SumOfLengths(docs: seq<Doc>)
    ensures SumOf(Lengths(docs)) == TotalLength(docs)
  {
    if docs != [] {
      var front := docs[..|docs| - 1];
      SumOfLengths(front);
      LengthsSnoc(front, docs[|docs| - 1]);
      assert docs == front + [docs[|docs| - 1]];
    }
  }

  /** The mean length of a document, 0 for an empty corpus. */
  function Average(docs: seq<Doc>): (r: real)
    ensures r >= 0.0
  {
    if docs == [] then 0.0 else TotalLength(docs) as real / |docs| as real
  }

  function Ratio(length: nat, average: real): (r: real)
    requires average > 0.0
    ensures r >= 0.0
  {
    length as real / average
  }

  function Saturation(tf: nat, ratio: real): real
    requires ratio >= 0.0
  {
    tf as real * (K1 + 1.0) / (tf as real + K1 * (1.0 - B + B * ratio))
  }

  /** The weight of one term of a document. */
  function Score(ln: real -> real, n: nat, average: real, tf: nat, length: nat, df: nat): real
    requires average >= 0.0
  {
    if df == 0 || average == 0.0 then 0.0
    else
      var idf := ln((n as real - df as real + 0.5) / (df as real + 0.5) + 1.0);
      idf * Saturation(tf, Ratio(length, average))
  }

  /** What a term weighs in `doc` over the documents seen so far. */
  function WeightOf(ln: real -> real, seen: seq<Doc>, doc: Doc, t: string): real {
    if Count(doc, t) == 0 then 0.0
    else Score(ln, |seen|, Average(seen), Count(doc, t), |doc|, DocFreq(seen, t))
  }

  function ScoreWeight(ln: real -> real, seen: seq<Doc>, doc: Doc): string -> real {
    t => WeightOf(ln, seen, doc, t)
  }

  /** A table of exact document frequencies of the vocabulary. */
  ghost predicate Exact(docFreq: map<string, nat>, terms: seq<string>, seen: seq<Doc>) {
    forall t :: (t in docFreq <==> t in terms) && (t in terms ==> docFreq[t] == DocFreq(seen, t))
  }

  /** The table while a document is folded in: `done` are its terms so far. */
  ghost predicate Partly(docFreq: map<string, nat>, terms: seq<string>, seen: seq<Doc>, done: seq<string>) {
    forall t :: (t in docFreq <==> t in terms)
      && (t in terms ==> docFreq[t] == DocFreq(seen, t) + if t in done then 1 else 0)
  }

  lemma FoldStep(docFreq: map<string, nat>, now: seq<string>, seen: seq<Doc>, unique: seq<string>, i: nat)
    requires i < |unique| && Distinct(unique) && Partly(docFreq, now, seen, unique[..i])
    ensures unique[i] in now ==>
      && unique[i] in docFreq
      && Partly(docFreq[unique[i] := docFreq[unique[i]] + 1], now, seen, unique[..i + 1])
    ensures unique[i] !in now ==> Partly(docFreq, now, seen, unique[..i + 1])
    ensures unique[i] !in now && DocFreq(seen, unique[i]) == 0 ==>
      Partly(docFreq[unique[i] := 1], now + [unique[i]], seen, unique[..i + 1])
  {
    var t := unique[i];
    assert unique[..i + 1] == unique[..i] + [t];
    forall s ensures s in unique[..i + 1] <==> s in unique[..i] || s == t {
    }
    assert t !in unique[..i];
    forall s ensures s in now + [t] <==> s in now || s == t {
    }
    hide DocFreq;
  }

  lemma FoldDone(docFreq: map<string, nat>, terms: seq<string>, seen: seq<Doc>, doc: Doc, unique: seq<string>)
    requires Partly(docFreq, terms, seen, unique) && forall t :: t in unique <==> t in doc
    ensures Exact(docFreq, terms, seen + [doc])
  {
    forall t ensures DocFreq(seen + [doc], t) == DocFreq(seen, t) + if t in unique then 1 else 0 {
      Snoc(seen, doc, t);
    }
  }

  method Measure(corpus: seq<Doc>) returns (lengths: seq<nat>, average: real)
    ensures lengths == Lengths(corpus) && average == Average(corpus)
  {
    lengths := [];
    for i := 0 to |corpus|
      invariant lengths == Lengths(corpus[..i])
    {
      assert corpus[..i + 1] == corpus[..i] + [corpus[i]];
      LengthsSnoc(corpus[..i], corpus[i]);
      lengths := lengths + [|corpus[i]|];
    }
    assert corpus[..|corpus|] == corpus;
    SumOfLengths(corpus);
    average := if |corpus| == 0 then 0.0 else SumOf(lengths) as real / |corpus| as real;
  }

  method Select(chosen: seq<string>, frequencies: map<string, nat>, ghost corpus: seq<Doc>)
    returns (docFreq: map<string, nat>)
    requires Frequencies(frequencies, corpus)
    ensures Exact(docFreq, chosen, corpus)
  {
    docFreq := map t | t in chosen :: Got(frequencies, t);
  }

  /** What one step of `FoldOne` relies on. */
  lemma FoldOneStep(
    docFreq: map<string, nat>, terms: seq<string>, dimension: nat, seen: seq<Doc>, unique: seq<string>, i: nat)
    requires i < |unique| && Distinct(unique) && Tracks(terms, dimension, seen)
    requires Partly(docFreq, Grown(terms, dimension, unique[..i]), seen, unique[..i])
    ensures var index, t := IndexOf(Grown(terms, dimension, unique[..i])), unique[i];
      var next, done := Grown(terms, dimension, unique[..i + 1]), unique[..i + 1];
      && (t in index ==>
            && t in docFreq && IndexOf(next) == index && Partly(docFreq[t := docFreq[t] + 1], next, seen, done))
      && (t !in index && |index| < dimension ==>
            IndexOf(next) == index[t := |index|] && Partly(docFreq[t := 1], next, seen, done))
      && (t !in index && |index| >= dimension ==> IndexOf(next) == index && Partly(docFreq, next, seen, done))
  {
    assert Distinct(terms) && |terms| <= dimension;
    hide *;
    AppendStep(terms, dimension, unique, i);
    FoldStep(docFreq, Grown(terms, dimension, unique[..i]), seen, unique, i);
    NewOrKnown(terms, dimension, seen, unique, i);
  }

  class Bm25 {
    const dimension: nat
    const ln: real -> real
    var vocabulary: map<string, nat>
    var docFreq: map<string, nat>
    var docLengths: seq<nat>
    var avgDocLength: real
    var totalDocs: nat
    ghost var terms: seq<string>
    ghost var seen: seq<Doc>

    /** `seen` are the documents since and including the last fit. */
    ghost predicate Valid()
      reads this
    {
      && vocabulary == IndexOf(terms) && Tracks(terms, dimension, seen)
      && Exact(docFreq, terms, seen)
      && docLengths == Lengths(seen) && totalDocs == |seen| && avgDocLength == Average(seen)
    }

    constructor (dimension: nat, ln: real -> real)
      ensures Valid() && this.dimension == dimension && this.ln == ln && seen == [] && terms == []
    {
      this.dimension, this.ln := dimension, ln;
      vocabulary, docFreq, docLengths, avgDocLength, totalDocs := map[], map[], [], 0.0, 0;
      terms, seen := [], [];
    }

    method Fit(corpus: seq<Doc>)
      modifies this
      ensures Valid() && seen == corpus
      ensures Heaviest(terms, TermsOf(corpus), TotalWeight(corpus), dimension)
    {
      var totals, frequencies := Tally(corpus);
      docLengths, avgDocLength := Measure(corpus);
      totalDocs := |corpus|;
      var chosen := ChooseTerms(totals.Keys, GotWeight(totals), dimension);
      SameChoice(totals, corpus, chosen, dimension);
      vocabulary := Number(chosen);
      docFreq := Select(chosen, frequencies, corpus);
      terms, seen := chosen, corpus;
    }

    /** Fold one document in: count, average and frequencies stay exact, and no
        term of the vocabulary moves. */
    method AddDocument(doc: Doc)
      requires Valid()
      modifies this
      ensures Valid() && seen == old(seen) + [doc]
      ensures GrewBy(old(terms), terms, dimension, doc)
    {
      LengthsSnoc(seen, doc);
      SumOfLengths(seen + [doc]);
      docLengths := docLengths + [|doc|];
      totalDocs := totalDocs + 1;
      avgDocLength := SumOf(docLengths) as real / totalDocs as real;
      var unique := SortedOnce(doc);
      for i := 0 to |unique|
        invariant vocabulary == IndexOf(Grown(terms, dimension, unique[..i]))
        invariant Partly(docFreq, Grown(terms, dimension, unique[..i]), seen, unique[..i])
        invariant docLengths == Lengths(seen + [doc]) && totalDocs == |seen + [doc]|
        invariant avgDocLength == Average(seen + [doc])
        invariant terms == old(terms) && seen == old(seen)
      {
        FoldOne(unique, i);
      }
      assert unique[..|unique|] == unique;
      GrowingTracks(terms, dimension, seen, doc, unique);
      FoldDone(docFreq, Grown(terms, dimension, unique), seen, doc, unique);
      terms, seen := Grown(terms, dimension, unique), seen + [doc];
    }

    method FoldOne(unique: seq<string>, i: nat)
      requires i < |unique| && Distinct(unique) && Tracks(terms, dimension, seen)
      requires vocabulary == IndexOf(Grown(terms, dimension, unique[..i]))
      requires Partly(docFreq, Grown(terms, dimension, unique[..i]), seen, unique[..i])
      modifies this`vocabulary, this`docFreq
      ensures vocabulary == IndexOf(Grown(terms, dimension, unique[..i + 1]))
      ensures Partly(docFreq, Grown(terms, dimension, unique[..i + 1]), seen, unique[..i + 1])
    {
      hide *;
      FoldOneStep(docFreq, terms, dimension, seen, unique, i);
      if unique[i] in vocabulary {
        docFreq := docFreq[unique[i] := docFreq[unique[i]] + 1];
      } else if |vocabulary| < dimension {
        vocabulary := vocabulary[unique[i] := |vocabulary|];
        docFreq := docFreq[unique[i] := 1];
      }
    }

    ghost function Embedding(sqrt: real -> real, doc: Doc): seq<real>
      reads this
    {
      Unit(sqrt, Coordinates(terms, dimension, ScoreWeight(ln, seen, doc)))
    }

    method Embed(sqrt: real -> real, doc: Doc) returns (v: seq<real>)
      requires Valid()
      ensures v == Embedding(sqrt, doc)
    {
      IndexOfIs(terms);
      var termFreq := CountTokens(doc);
      v := seq(dimension, _ => 0.0);
      ghost var weight := ScoreWeight(ln, seen, doc);
      var rest := vocabulary.Keys;
      while rest != {}
        invariant rest <= vocabulary.Keys && Filled(v, terms, dimension, rest, weight)
        decreases |rest|
      {
        var term :| term in rest;
        FillOne(v, terms, dimension, rest, weight, term);
        if Got(termFreq, term) > 0 {
          var weighed := Score(ln, totalDocs, avgDocLength, Got(termFreq, term), |doc|, Got(docFreq, term));
          v := v[vocabulary[term] := weighed];
        }
        rest := rest - {term};
      }
      FilledIs(v, terms, dimension, weight);
      v := Normalize(sqrt, v);
    }
  }

  lemma NewOrKnown(terms: seq<string>, dimension: nat, seen: seq<Doc>, unique: seq<string>, i: nat)
    requires i < |unique| && Tracks(terms, dimension, seen)
    ensures var now := Grown(terms, dimension, unique[..i]);
      unique[i] !in now && |now| < dimension ==> DocFreq(seen, unique[i]) == 0
  {
    var now := Grown(terms, dimension, unique[..i]);
    GrownExtends(terms, dimension, unique[..i]);
    if unique[i] !in now && |now| < dimension {
      forall m | 0 <= m < |terms| ensures terms[m] != unique[i] {
        assert now[m] == terms[m];
      }
      NewTermIsNew(terms, dimension, seen, unique[i]);
    }
  }

  /** Where every term fits, folding documents in and fitting on all of them give
      every pair of texts the same similarity, and every text the same coordinate
      at each term's place. */
  lemma IncrementalIsBatch(a: Bm25, b: Bm25, sqrt: real -> real, x: Doc, y: Doc)
    requires a.Valid() && b.Valid() && a.seen == b.seen && a.dimension == b.dimension && a.ln == b.ln
    requires |TermsOf(a.seen)| <= a.dimension
    ensures Dot(a.Embedding(sqrt, x), a.Embedding(sqrt, y)) == Dot(b.Embedding(sqrt, x), b.Embedding(sqrt, y))
    ensures a.docFreq == b.docFreq && a.avgDocLength == b.avgDocLength
    ensures a.vocabulary.Keys == b.vocabulary.Keys
    ensures forall t :: t in a.vocabulary ==>
      && a.vocabulary[t] < a.dimension && b.vocabulary[t] < a.dimension
      && a.Embedding(sqrt, x)[a.vocabulary[t]] == b.Embedding(sqrt, x)[b.vocabulary[t]]
  {
    SameMembers(a.terms, b.terms, a.dimension, a.seen);
    SameSimilarity(a.terms, b.terms, a.dimension, sqrt, ScoreWeight(a.ln, a.seen, x), ScoreWeight(a.ln, a.seen, y));
    SamePlaces(a.terms, b.terms, a.dimension, sqrt, ScoreWeight(a.ln, a.seen, x));
  }

  // ----- what the weights say -----------------------------------------------

  lemma IdfArgument(n: nat, df: nat)
    requires 0 < df <= n
    ensures (n as real - df as real + 0.5) / (df as real + 0.5) + 1.0 > 1.0
  {
    FractionPositive(n as real - df as real + 0.5, df as real + 0.5);
  }

  lemma RarerIdf(n: nat, df: nat, ef: nat)
    requires 0 < df < ef <= n
    ensures (n as real - ef as real + 0.5) / (ef as real + 0.5) < (n as real - df as real + 0.5) / (df as real + 0.5)
  {
    var a, b, x, y := n as real - ef as real + 0.5, n as real - df as real + 0.5, ef as real + 0.5, df as real + 0.5;
    ProductOrder(a, b, y);
    ProductOrder(y, x, b);
    FractionLess(a, b, x, y);
  }

  /** What adds to the count in the denominator. */
  function Damping(ratio: real): (c: real)
    requires ratio >= 0.0
    ensures c > 0.0
  {
    K1 * (1.0 - B + B * ratio)
  }

  lemma SaturationIs(tf: nat, ratio: real)
    requires ratio >= 0.0
    ensures Saturation(tf, ratio) == (tf as real * 2.5) / (tf as real + Damping(ratio))
  {
  }

  lemma SaturatesMore(a: real, b: real, c: real)
    requires 0.0 < a < b && c > 0.0
    ensures (a * 2.5) / (a + c) < (b * 2.5) / (b + c)
  {
    var p, q := a * 2.5, b * 2.5;
    ProductOrder(a, b, c);
    assert p * (b + c) == 2.5 * (a * b) + 2.5 * (a * c);
    assert q * (a + c) == 2.5 * (a * b) + 2.5 * (b * c);
    FractionLess(p, q, a + c, b + c);
  }

  /** More occurrences count more, a longer document less. */
  lemma SaturationOrder(tf: nat, more: nat, ratio: real, longer: real)
    requires 0 < tf <= more && 0.0 <= ratio <= longer
    ensures Saturation(tf, ratio) > 0.0
    ensures tf < more ==> Saturation(tf, ratio) < Saturation(more, ratio)
    ensures ratio < longer ==> Saturation(tf, ratio) > Saturation(tf, longer)
  {
    var a, b, c, d := tf as real, more as real, Damping(ratio), Damping(longer);
    SaturationIs(tf, ratio);
    SaturationIs(more, ratio);
    SaturationIs(tf, longer);
    FractionPositive(a * 2.5, a + c);
    if tf < more {
      SaturatesMore(a, b, c);
    }
    if ratio < longer {
      assert c < d;
      FractionFalls(a * 2.5, a + c, a + d);
    }
  }

  lemma AveragePositive(seen: seq<Doc>, t: string)
    requires DocFreq(seen, t) > 0
    ensures Average(seen) > 0.0 && DocFreq(seen, t) <= |seen|
  {
    FrequencyBound(seen, t);
    FractionPositive(TotalLength(seen) as real, |seen| as real);
  }

  function IdfOf(ln: real -> real, n: nat, df: nat): real {
    ln((n as real - df as real + 0.5) / (df as real + 0.5) + 1.0)
  }

  lemma WeightIs(ln: real -> real, seen: seq<Doc>, doc: Doc, t: string)
    requires Count(doc, t) > 0 && DocFreq(seen, t) > 0
    ensures Average(seen) > 0.0
    ensures WeightOf(ln, seen, doc, t) ==
      Times(IdfOf(ln, |seen|, DocFreq(seen, t)), Saturation(Count(doc, t), Ratio(|doc|, Average(seen))))
  {
    AveragePositive(seen, t);
    hide Saturation, Ratio, Average, DocFreq, Count;
  }

  lemma IdfOrder(ln: real -> real, n: nat, df: nat, ef: nat)
    requires LnLaw(ln) && 0 < df <= ef <= n
    ensures IdfOf(ln, n, df) > 0.0
    ensures df < ef ==> IdfOf(ln, n, df) > IdfOf(ln, n, ef)
  {
    IdfArgument(n, df);
    IdfArgument(n, ef);
    if df < ef {
      RarerIdf(n, df, ef);
    }
  }

  lemma RatioOrder(length: nat, longer: nat, average: real)
    requires average > 0.0 && length <= longer
    ensures Ratio(length, average) <= Ratio(longer, average)
    ensures length < longer ==> Ratio(length, average) < Ratio(longer, average)
  {
    if length < longer {
      FractionOrder(length as real, longer as real, average);
    }
  }

  /** A term that is in the document and in some document seen has weight. */
  lemma PresentWeighs(ln: real -> real, seen: seq<Doc>, doc: Doc, t: string)
    requires LnLaw(ln) && DocFreq(seen, t) > 0
    ensures WeightOf(ln, seen, doc, t) >= 0.0
    ensures WeightOf(ln, seen, doc, t) > 0.0 <==> t in doc
  {
    if Count(doc, t) > 0 {
      assert t in doc;
      hide *;
      WeightIs(ln, seen, doc, t);
      AveragePositive(seen, t);
      var idf, ratio := IdfOf(ln, |seen|, DocFreq(seen, t)), Ratio(|doc|, Average(seen));
      IdfOrder(ln, |seen|, DocFreq(seen, t), DocFreq(seen, t));
      SaturationOrder(Count(doc, t), Count(doc, t), ratio, ratio);
      var saturation := Saturation(Count(doc, t), ratio);
      TimesGrows(idf, idf, saturation, saturation);
    }
  }

  /** Of two terms as frequent in the document the rarer one weighs more. */
  lemma RarerWeighsMore(ln: real -> real, seen: seq<Doc>, doc: Doc, t: string, u: string)
    requires LnLaw(ln) && 0 < DocFreq(seen, t) < DocFreq(seen, u) && Count(doc, t) == Count(doc, u) > 0
    ensures WeightOf(ln, seen, doc, t) > WeightOf(ln, seen, doc, u)
  {
    hide *;
    WeightIs(ln, seen, doc, t);
    WeightIs(ln, seen, doc, u);
    FrequencyBound(seen, u);
    IdfOrder(ln, |seen|, DocFreq(seen, t), DocFreq(seen, u));
    IdfOrder(ln, |seen|, DocFreq(seen, u), DocFreq(seen, u));
    var ratio := Ratio(|doc|, Average(seen));
    SaturationOrder(Count(doc, t), Count(doc, t), ratio, ratio);
    var saturation := Saturation(Count(doc, t), ratio);
    TimesGrows(IdfOf(ln, |seen|, DocFreq(seen, u)), IdfOf(ln, |seen|, DocFreq(seen, t)), saturation, saturation);
  }

  /** More occurrences weigh more in a document of the same length. */
  lemma MoreWeighsMore(ln: real -> real, seen: seq<Doc>, x: Doc, y: Doc, t: string)
    requires LnLaw(ln) && DocFreq(seen, t) > 0 && |x| == |y| && 0 < Count(x, t) < Count(y, t)
    ensures WeightOf(ln, seen, x, t) < WeightOf(ln, seen, y, t)
  {
    hide *;
    WeightIs(ln, seen, x, t);
    WeightIs(ln, seen, y, t);
    AveragePositive(seen, t);
    var idf, r := IdfOf(ln, |seen|, DocFreq(seen, t)), Ratio(|x|, Average(seen));
    IdfOrder(ln, |seen|, DocFreq(seen, t), DocFreq(seen, t));
    SaturationOrder(Count(x, t), Count(y, t), r, r);
    TimesGrows(idf, idf, Saturation(Count(x, t), r), Saturation(Count(y, t), r));
  }

  /** As many occurrences weigh less in a longer document. */
  lemma LongerWeighsLess(ln: real -> real, seen: seq<Doc>, x: Doc, y: Doc, t: string)
    requires LnLaw(ln) && DocFreq(seen, t) > 0 && 0 < Count(x, t) == Count(y, t) && |x| < |y|
    ensures WeightOf(ln, seen, x, t) > WeightOf(ln, seen, y, t)
  {
    hide *;
    WeightIs(ln, seen, x, t);
    WeightIs(ln, seen, y, t);
    AveragePositive(seen, t);
    var idf, r, q := IdfOf(ln, |seen|, DocFreq(seen, t)), Ratio(|x|, Average(seen)), Ratio(|y|, Average(seen));
    IdfOrder(ln, |seen|, DocFreq(seen, t), DocFreq(seen, t));
    RatioOrder(|x|, |y|, Average(seen));
    SaturationOrder(Count(x, t), Count(x, t), r, q);
    SaturationOrder(Count(x, t), Count(x, t), q, q);
    TimesGrows(idf, idf, Saturation(Count(x, t), q), Saturation(Count(x, t), r));
  }

  /** An embedding has unit length or is zero; its coordinate at a term is positive
      exactly when the document has the term; and of two terms as frequent in the
      document the one in fewer documents has the larger coordinate. */
  lemma EmbeddingMeans(e: Bm25, sqrt: real -> real, doc: Doc, t: string, u: string)
    requires e.Valid() && SqrtLaw(sqrt) && LnLaw(e.ln) && t in e.vocabulary && u in e.vocabulary
    ensures var v := e.Embedding(sqrt, doc);
      && |v| == e.dimension && e.vocabulary[t] < |v| && e.vocabulary[u] < |v|
      && (Dot(v, v) == 1.0 || IsZero(v))
      && v[e.vocabulary[t]] >= 0.0 && (v[e.vocabulary[t]] > 0.0 <==> t in doc)
      && (Count(doc, t) == Count(doc, u) > 0 && DocFreq(e.seen, t) < DocFreq(e.seen, u) ==>
            v[e.vocabulary[t]] > v[e.vocabulary[u]])
  {
    var w := ScoreWeight(e.ln, e.seen, doc);
    IndexOfIs(e.terms);
    OccursIff(e.seen, t);
    UnitLength(sqrt, Coordinates(e.terms, e.dimension, w));
    PresentWeighs(e.ln, e.seen, doc, t);
    if Count(doc, t) == Count(doc, u) > 0 && DocFreq(e.seen, t) < DocFreq(e.seen, u) {
      RarerWeighsMore(e.ln, e.seen, doc, t, u);
    }
    hide WeightOf, SqrtLaw, LnLaw;
    HeavierIsLarger(sqrt, e.terms, e.dimension, w, t, u);
  }

  /** Concrete weights: with "a" in both of two documents and "b" in one, the text "a b"
      gets `ln 2` for "b" and `ln 1.2` for "a", each times 20/23. */
  lemma RareExample(ln: real -> real)
    ensures var seen, doc := [["a", "b"], ["a"]], ["a", "b"];
      && WeightOf(ln, seen, doc, "a") == ln(1.2) * (20.0 / 23.0)
      && WeightOf(ln, seen, doc, "b") == ln(2.0) * (20.0 / 23.0)
  {
    assert [["a", "b"]] + [["a"]] == [["a", "b"], ["a"]] && [] + [["a", "b"]] == [["a", "b"]];
    Snoc([], ["a", "b"], "a");
    Snoc([], ["a", "b"], "b");
    Snoc([["a", "b"]], ["a"], "a");
    Snoc([["a", "b"]], ["a"], "b");
    var seen := [["a", "b"], ["a"]];
    assert DocFreq(seen, "a") == 2 && DocFreq(seen, "b") == 1 && TotalLength(seen) == 3;
    assert Average(seen) == 1.5 && Ratio(2, 1.5) == 4.0 / 3.0;
    assert Saturation(1, 4.0 / 3.0) == 20.0 / 23.0;
  }
}
