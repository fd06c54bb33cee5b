/** Refit with the embedders modelled here. What a fit leaves behind is a function of
    its corpus: nothing of an earlier vocabulary or of the order in which a hash map
    lists its terms remains. So a second refit changes nothing. */
module FittedRefit {
  import opened Core
  import opened Collections
  import opened Embedders
  import opened Linear
  import opened Refit
  import opened Slots
  import opened Sorting
  import opened Vocabulary
  import Bm25
  import TfIdf

  /** The tokens, or n-grams, of a text. */
  type Tokenizer = string -> Doc

  // ----- fits as functions of the corpus ------------------------------------

  ghost function CountEmbedding(dimension: nat, sqrt: real -> real, tokens: Tokenizer): Embedding {
    (corpus, text) =>
      var docs := Map(tokens, corpus);
      var terms := TopTerms(TermsOf(docs), TotalWeight(docs), dimension);
      Unit(sqrt, Coordinates(terms, dimension, CountWeight(tokens(text))))
  }

  ghost function Bm25Embedding(dimension: nat, ln: real -> real, sqrt: real -> real, tokens: Tokenizer): Embedding {
    (corpus, text) =>
      var docs := Map(tokens, corpus);
      var terms := TopTerms(TermsOf(docs), TotalWeight(docs), dimension);
      Unit(sqrt, Coordinates(terms, dimension, Bm25.ScoreWeight(ln, docs, tokens(text))))
  }

  ghost function TfIdfEmbedding(dimension: nat, ln: real -> real, sqrt: real -> real, tokens: Tokenizer): Embedding {
    (corpus, text) =>
      var docs := Map(tokens, corpus);
      var terms := TopTerms(TermsOf(docs), TfIdf.RankWeight(ln, docs), dimension);
      Unit(sqrt, Coordinates(terms, dimension, TfIdf.TfIdfWeight(ln, docs, tokens(text))))
  }

  /** Whatever the embedder held before it was fitted, it now embeds by this function. */
  lemma CountFit(e: TermCounter, sqrt: real -> real, tokens: Tokenizer, corpus: seq<string>, text: string)
    requires e.seen == Map(tokens, corpus)
    requires Heaviest(e.terms, TermsOf(e.seen), TotalWeight(e.seen), e.dimension)
    ensures e.Embedding(sqrt, tokens(text)) == CountEmbedding(e.dimension, sqrt, tokens)(corpus, text)
  {
    HeaviestUnique(e.terms, TopTerms(TermsOf(e.seen), TotalWeight(e.seen), e.dimension),
                   TermsOf(e.seen), TotalWeight(e.seen), e.dimension);
  }

  lemma Bm25Fit(e: Bm25.Bm25, sqrt: real -> real, tokens: Tokenizer, corpus: seq<string>, text: string)
    requires e.seen == Map(tokens, corpus)
    requires Heaviest(e.terms, TermsOf(e.seen), TotalWeight(e.seen), e.dimension)
    ensures e.Embedding(sqrt, tokens(text)) == Bm25Embedding(e.dimension, e.ln, sqrt, tokens)(corpus, text)
  {
    HeaviestUnique(e.terms, TopTerms(TermsOf(e.seen), TotalWeight(e.seen), e.dimension),
                   TermsOf(e.seen), TotalWeight(e.seen), e.dimension);
  }

  lemma TfIdfFit(e: TfIdf.TfIdf, sqrt: real -> real, tokens: Tokenizer, corpus: seq<string>, text: string)
    requires e.seen == Map(tokens, corpus)
    requires Heaviest(e.terms, TermsOf(e.seen), TfIdf.RankWeight(e.ln, e.seen), e.dimension)
    ensures e.Embedding(sqrt, tokens(text)) == TfIdfEmbedding(e.dimension, e.ln, sqrt, tokens)(corpus, text)
  {
    HeaviestUnique(e.terms, TopTerms(TermsOf(e.seen), TfIdf.RankWeight(e.ln, e.seen), e.dimension),
                   TermsOf(e.seen), TfIdf.RankWeight(e.ln, e.seen), e.dimension);
  }

  // ----- refit with the default embedder ------------------------------------

  method ReembedOne(
    e: Bm25.Bm25, sqrt: real -> real, tokens: Tokenizer, ghost corpus: seq<string>, p: Point, text: string)
    returns (q: Point)
    requires e.Valid() && e.seen == Map(tokens, corpus)
    requires Heaviest(e.terms, TermsOf(e.seen), TotalWeight(e.seen), e.dimension)
    ensures q == Reembedded(Bm25Embedding(e.dimension, e.ln, sqrt, tokens), corpus, p, text)
  {
    Bm25Fit(e, sqrt, tokens, corpus, text);
    hide Bm25.Bm25.Valid, Bm25Embedding, Bm25.Bm25.Embedding, Heaviest;
    var v := e.Embed(sqrt, tokens(text));
    v := NonZero(v);
    var sparse := Sparse.SparseFromDense(v);
    q := Point(p.id, v, sparse, p.payload);
  }

  /** Embed every document again with the fitted embedder. */
  method ReembedByBm25(e: Bm25.Bm25, sqrt: real -> real, tokens: Tokenizer, corpus: seq<string>, docs: seq<Point>)
    returns (out: seq<Point>)
    requires e.Valid() && e.seen == Map(tokens, corpus)
    requires Heaviest(e.terms, TermsOf(e.seen), TotalWeight(e.seen), e.dimension)
    requires forall i :: 0 <= i < |docs| ==> TextOf(docs[i]).Some?
    ensures out == Fresh(Bm25Embedding(e.dimension, e.ln, sqrt, tokens), corpus, docs)
  {
    hide *;
    ghost var embed := Bm25Embedding(e.dimension, e.ln, sqrt, tokens);
    out := [];
    for i := 0 to |docs|
      invariant |out| == i
      invariant forall j :: 0 <= j < i ==> out[j] == Reembedded(embed, corpus, docs[j], TextOf(docs[j]).value)
    {
      var q := ReembedOne(e, sqrt, tokens, corpus, docs[i], TextOf(docs[i]).value);
      out := out + [q];
    }
  }

  /** Fit on the whole corpus, then embed every document again. */
  method FitByBm25(e: Bm25.Bm25, sqrt: real -> real, tokens: Tokenizer, corpus: seq<string>, docs: seq<Point>)
    returns (out: seq<Point>)
    requires forall i :: 0 <= i < |docs| ==> TextOf(docs[i]).Some?
    modifies e
    ensures out == Fresh(Bm25Embedding(e.dimension, e.ln, sqrt, tokens), corpus, docs)
  {
    e.Fit(Map(tokens, corpus));
    hide *;
    out := ReembedByBm25(e, sqrt, tokens, corpus, docs);
  }

  lemma Bm25Sized(dimension: nat, ln: real -> real, sqrt: real -> real, tokens: Tokenizer)
    ensures Sized(Bm25Embedding(dimension, ln, sqrt, tokens), dimension)
  {
    var embed := Bm25Embedding(dimension, ln, sqrt, tokens);
    forall corpus: seq<string>, text: string ensures |embed(corpus, text)| == dimension {
      var docs := Map(tokens, corpus);
      var terms := TopTerms(TermsOf(docs), TotalWeight(docs), dimension);
      var v := Unit(sqrt, Coordinates(terms, dimension, Bm25.ScoreWeight(ln, docs, tokens(text))));
      assert embed(corpus, text) == v;
    }
  }

  lemma RefitSettles(config: Config, sqrt: real -> real, embed: Embedding, d: Data)
    requires Valid(d, config.dimension)
    ensures var l := Points(d, config.dimension);
      Refitted(config, sqrt, embed, Refitted(config, sqrt, embed, l)) == Refitted(config, sqrt, embed, l)
  {
    assert Shape(d, config.dimension);
    PointsBelowMembers(d, config.dimension, |d.ids|);
    hide *;
    RefitIdempotent(config, sqrt, embed, Points(d, config.dimension));
  }

  /** Fit on the stored texts and upsert every document again. From then on a refit
      finds nothing to change, whatever the embedder folds in until then. */
  method RefitByBm25(
    c: CollectionData, config: Config, sqrt: real -> real, e: Bm25.Bm25, tokens: Tokenizer)
    returns (r: Result<(), Error>)
    requires Valid(c.Model(), config.dimension) && AllStored(config, sqrt, Points(c.Model(), config.dimension))
    requires SqrtLaw(sqrt) && e.dimension == config.dimension > 0
    modifies c, c.payloadIndexes, e
    ensures r.Success? && Valid(c.Model(), config.dimension)
    ensures var embed := Bm25Embedding(e.dimension, e.ln, sqrt, tokens);
      var after := Points(c.Model(), config.dimension);
      && after == Refitted(config, sqrt, embed, Points(old(c.Model()), config.dimension))
      && Refitted(config, sqrt, embed, after) == after
  {
    ghost var l := Points(c.Model(), config.dimension);
    ghost var embed := Bm25Embedding(e.dimension, e.ln, sqrt, tokens);
    RefitSettles(config, sqrt, embed, c.Model());
    Bm25Sized(e.dimension, e.ln, sqrt, tokens);
    hide *;
    var docs, corpus := LiveTexts(c, config.dimension);
    TextPointsHaveText(l);
    if docs == [] {
      return Success(());
    }
    var out := FitByBm25(e, sqrt, tokens, corpus, docs);
    r := PutBack(c, config, sqrt, embed, out);
  }
}
