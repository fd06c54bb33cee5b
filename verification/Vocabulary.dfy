/** What the trainable embedders share (crates/veclite/src/embedding): counts over
    documents, the vocabulary as a list of terms, and embeddings that depend on the
    order of that list only by the order of their coordinates. Documents are lists
    of tokens. */
module Vocabulary {
  import opened Core
  import opened Linear
  import opened Sorting

  type Doc = seq<string>

  // ----- counts -------------------------------------------------------------

  function Count(doc: Doc, term: string): nat {
    multiset(doc)[term]
  }

  function TermsOf(docs: seq<Doc>): set<string> {
    if docs == [] then {} else TermsOf(docs[..|docs| - 1]) + Elems(docs[|docs| - 1])
  }

  /** In how many documents a term occurs. */
  function DocFreq(docs: seq<Doc>, term: string): nat {
    if docs == [] then 0
    else DocFreq(docs[..|docs| - 1], term) + if term in docs[|docs| - 1] then 1 else 0
  }

  /** How often it occurs in all of them. */
  function TotalCount(docs: seq<Doc>, term: string): nat {
    if docs == [] then 0 else TotalCount(docs[..|docs| - 1], term) + Count(docs[|docs| - 1], term)
  }

  function TotalLength(docs: seq<Doc>): nat {
    if docs == [] then 0 else TotalLength(docs[..|docs| - 1]) + |docs[|docs| - 1]|
  }

  lemma Snoc(docs: seq<Doc>, doc: Doc, term: string)
    ensures TermsOf(docs + [doc]) == TermsOf(docs) + Elems(doc)
    ensures DocFreq(docs + [doc], term) == DocFreq(docs, term) + if term in doc then 1 else 0
    ensures TotalCount(docs + [doc], term) == TotalCount(docs, term) + Count(doc, term)
    ensures TotalLength(docs + [doc]) == TotalLength(docs) + |doc|
  {
    assert (docs + [doc])[..|docs|] == docs;
  }

  lemma {:induction false} OccursIff(docs: seq<Doc>, term: string)
    ensures term in TermsOf(docs) <==> DocFreq(docs, term) > 0
  {
    if docs != [] {
      OccursIff(docs[..|docs| - 1], term);
    }
  }

  /** What is known of the logarithm. */
  ghost predicate LnLaw(ln: real -> real) {
    ln(1.0) == 0.0 && forall x, y :: 0.0 < x < y ==> ln(x) < ln(y)
  }

  lemma {:induction false} FrequencyBound(docs: seq<Doc>, term: string)
    ensures DocFreq(docs, term) <= |docs| && DocFreq(docs, term) <= TotalLength(docs)
  {
    if docs != [] {
      FrequencyBound(docs[..|docs| - 1], term);
    }
  }

  // ----- the vocabulary -----------------------------------------------------

  /** Each term's index in the list. */
  function IndexOf(terms: seq<string>): map<string, nat> {
    if terms == [] then map[] else IndexOf(terms[..|terms| - 1])[terms[|terms| - 1] := |terms| - 1]
  }

  /** The index map is a bijection between the terms and `0..|terms|`. */
  lemma {:induction false} IndexOfIs(terms: seq<string>)
    requires Distinct(terms)
    ensures forall t :: t in IndexOf(terms) <==> t in terms
    ensures forall i :: 0 <= i < |terms| ==> IndexOf(terms)[terms[i]] == i
    ensures |IndexOf(terms)| == |terms|
  {
    if terms != [] {
      var front, last := terms[..|terms| - 1], terms[|terms| - 1];
      IndexOfIs(front);
      assert terms == front + [last];
      assert last !in front;
      forall i | 0 <= i < |terms| ensures IndexOf(terms)[terms[i]] == i {
        assert i < |front| ==> front[i] == terms[i];
      }
    }
  }

  lemma IndexOfSnoc(terms: seq<string>, t: string)
    ensures IndexOf(terms + [t]) == IndexOf(terms)[t := |terms|]
  {
    assert (terms + [t])[..|terms|] == terms;
  }

  /** New terms join at the end while there is room. */
  function Grown(terms: seq<string>, dimension: nat, added: seq<string>): seq<string> {
    if added == [] then terms
    else
      var before, last := Grown(terms, dimension, added[..|added| - 1]), added[|added| - 1];
      if last in before || |before| >= dimension then before else before + [last]
  }

  lemma GrownSnoc(terms: seq<string>, dimension: nat, added: seq<string>, t: string)
    ensures var before := Grown(terms, dimension, added);
      Grown(terms, dimension, added + [t]) == if t in before || |before| >= dimension then before else before + [t]
  {
    assert (added + [t])[..|added|] == added;
  }

  /** A vocabulary of the documents seen so far: their terms, all of them while
      there is room for more. */
  ghost predicate Tracks(terms: seq<string>, dimension: nat, seen: seq<Doc>) {
    && Distinct(terms) && |terms| <= dimension
    && (forall t :: t in terms ==> t in TermsOf(seen))
    && (|terms| < dimension ==> forall t :: t in TermsOf(seen) ==> t in terms)
  }

  lemma {:induction false} GrownExtends(terms: seq<string>, dimension: nat, added: seq<string>)
    requires Distinct(terms) && |terms| <= dimension
    ensures var g := Grown(terms, dimension, added);
      && terms <= g && Distinct(g) && |g| <= dimension
      && (forall t :: t in g ==> t in terms || t in added)
      && (|g| < dimension ==> forall t :: t in added ==> t in g)
  {
    if added != [] {
      var front, last := added[..|added| - 1], added[|added| - 1];
      GrownExtends(terms, dimension, front);
      assert added == front + [last];
    }
  }

  /** A term in the vocabulary keeps its index for good. */
  lemma IndexesStay(terms: seq<string>, dimension: nat, added: seq<string>, t: string)
    requires Distinct(terms) && |terms| <= dimension && t in terms
    ensures t in IndexOf(Grown(terms, dimension, added))
    ensures t in IndexOf(terms) && IndexOf(Grown(terms, dimension, added))[t] == IndexOf(terms)[t]
  {
    GrownExtends(terms, dimension, added);
    IndexOfIs(terms);
    IndexOfIs(Grown(terms, dimension, added));
    var i :| 0 <= i < |terms| && terms[i] == t;
    assert Grown(terms, dimension, added)[i] == t;
  }

  /** Adding a document keeps the vocabulary in step, also when it is full. */
  lemma GrowingTracks(terms: seq<string>, dimension: nat, seen: seq<Doc>, doc: Doc, added: seq<string>)
    requires Tracks(terms, dimension, seen) && forall t :: t in added <==> t in doc
    ensures Tracks(Grown(terms, dimension, added), dimension, seen + [doc])
  {
    GrownExtends(terms, dimension, added);
    Snoc(seen, doc, "");
  }

  /** A term that joins late occurs in no earlier document. */
  lemma NewTermIsNew(terms: seq<string>, dimension: nat, seen: seq<Doc>, t: string)
    requires Tracks(terms, dimension, seen) && |terms| < dimension && t !in terms
    ensures DocFreq(seen, t) == 0
  {
    OccursIff(seen, t);
  }

  lemma {:induction false} MembersBound(terms: seq<string>, all: set<string>)
    requires Distinct(terms) && forall t :: t in terms ==> t in all
    ensures |terms| <= |all|
    ensures |terms| == |all| ==> forall t :: t in all ==> t in terms
  {
    if terms == [] {
      if |all| == 0 {
        assert all == {};
      }
    } else {
      var front, last := terms[..|terms| - 1], terms[|terms| - 1];
      assert terms == front + [last];
      assert last !in front;
      MembersBound(front, all - {last});
    }
  }

  /** Where every term fits, all vocabularies of the same documents have the same
      terms, whatever the order. */
  lemma SameMembers(a: seq<string>, b: seq<string>, dimension: nat, seen: seq<Doc>)
    requires Tracks(a, dimension, seen) && Tracks(b, dimension, seen) && |TermsOf(seen)| <= dimension
    ensures forall t :: t in a <==> t in b
    ensures multiset(a) == multiset(b)
  {
    MembersBound(a, TermsOf(seen));
    MembersBound(b, TermsOf(seen));
    DistinctPermutes(a, b);
  }

  // ----- embeddings ---------------------------------------------------------

  /** One coordinate per term, the rest zero. */
  function Coordinates(terms: seq<string>, dimension: nat, weight: string -> real): (v: seq<real>)
    ensures |v| == dimension
  {
    seq(dimension, i requires 0 <= i < dimension => if i < |terms| then weight(terms[i]) else 0.0)
  }

  /** Divided by its length, unless it is zero. */
  function Unit(sqrt: real -> real, v: seq<real>): (r: seq<real>)
    ensures |r| == |v|
  {
    if Norm(sqrt, v) > 0.0 then Divide(v, Norm(sqrt, v)) else v
  }

  /** Unit length, or zero. */
  lemma UnitLength(sqrt: real -> real, v: seq<real>)
    requires SqrtLaw(sqrt)
    ensures Dot(Unit(sqrt, v), Unit(sqrt, v)) == 1.0 || (IsZero(v) && Unit(sqrt, v) == v)
  {
    NormZero(sqrt, v);
    if Norm(sqrt, v) > 0.0 {
      NormalizedIsUnit(sqrt, v);
    }
  }

  /** Normalizing keeps the order of the coordinates and their signs. */
  lemma UnitKeepsOrder(sqrt: real -> real, v: seq<real>, i: nat, j: nat)
    requires SqrtLaw(sqrt) && i < |v| && j < |v|
    ensures v[i] > v[j] ==> Unit(sqrt, v)[i] > Unit(sqrt, v)[j]
    ensures v[i] > 0.0 ==> Unit(sqrt, v)[i] > 0.0
    ensures v[i] == 0.0 ==> Unit(sqrt, v)[i] == 0.0
  {
    NormZero(sqrt, v);
    var n := Norm(sqrt, v);
    if n > 0.0 {
      if v[i] > v[j] {
        FractionOrder(v[j], v[i], n);
      }
      if v[i] > 0.0 {
        FractionPositive(v[i], n);
      }
      QuotientUnique(0.0, n, 0.0);
    }
  }

  lemma CrossRatio(a: real, b: real, n: real)
    requires n != 0.0
    ensures Times(a, b / n) == Times(b, a / n)
  {
    DivideTimes(b, n, a);
    DivideTimes(a, n, b);
    assert a * (b / n) == b / n * a && b * (a / n) == a / n * b;
  }

  lemma TimesCommutes(a: real, b: real)
    ensures Times(a, b) == Times(b, a)
  {
  }

  /** Normalizing keeps the ratios of the coordinates. */
  lemma UnitKeepsRatios(sqrt: real -> real, v: seq<real>, i: nat, j: nat)
    requires i < |v| && j < |v|
    ensures Times(v[i], Unit(sqrt, v)[j]) == Times(v[j], Unit(sqrt, v)[i])
  {
    hide Times;
    if Norm(sqrt, v) > 0.0 {
      CrossRatio(v[i], v[j], Norm(sqrt, v));
    } else {
      TimesCommutes(v[i], v[j]);
    }
  }

  /** The coordinate of a term of the vocabulary is its weight. */
  lemma CoordinateIs(terms: seq<string>, dimension: nat, weight: string -> real, t: string)
    requires Distinct(terms) && |terms| <= dimension && t in terms
    ensures t in IndexOf(terms) && IndexOf(terms)[t] < dimension
    ensures Coordinates(terms, dimension, weight)[IndexOf(terms)[t]] == weight(t)
  {
    IndexOfIs(terms);
    var i :| 0 <= i < |terms| && terms[i] == t;
  }

  /** The coordinate of a term in a normalized embedding. */
  function At(sqrt: real -> real, terms: seq<string>, dimension: nat, weight: string -> real, t: string): real
    requires Distinct(terms) && |terms| <= dimension && t in terms
  {
    CoordinateIs(terms, dimension, weight, t);
    Unit(sqrt, Coordinates(terms, dimension, weight))[IndexOf(terms)[t]]
  }

  /** Heavier terms have larger coordinates. */
  lemma HeavierIsLarger(
    sqrt: real -> real, terms: seq<string>, dimension: nat, weight: string -> real, t: string, u: string)
    requires SqrtLaw(sqrt) && Distinct(terms) && |terms| <= dimension && t in terms && u in terms
    ensures weight(t) > weight(u) ==> At(sqrt, terms, dimension, weight, t) > At(sqrt, terms, dimension, weight, u)
    ensures weight(t) > 0.0 ==> At(sqrt, terms, dimension, weight, t) > 0.0
    ensures weight(t) == 0.0 ==> At(sqrt, terms, dimension, weight, t) == 0.0
  {
    CoordinateIs(terms, dimension, weight, t);
    CoordinateIs(terms, dimension, weight, u);
    var v, i, j := Coordinates(terms, dimension, weight), IndexOf(terms)[t], IndexOf(terms)[u];
    assert v[i] == weight(t) && v[j] == weight(u) && i < |v| && j < |v|;
    assert At(sqrt, terms, dimension, weight, t) == Unit(sqrt, v)[i];
    assert At(sqrt, terms, dimension, weight, u) == Unit(sqrt, v)[j];
    hide *;
    UnitKeepsOrder(sqrt, v, i, j);
  }

  /** Coordinates are in the ratio of the weights. */
  lemma RatioOfWeights(
    sqrt: real -> real, terms: seq<string>, dimension: nat, weight: string -> real, t: string, u: string)
    requires Distinct(terms) && |terms| <= dimension && t in terms && u in terms
    ensures Times(weight(t), At(sqrt, terms, dimension, weight, u)) ==
      Times(weight(u), At(sqrt, terms, dimension, weight, t))
  {
    CoordinateIs(terms, dimension, weight, t);
    CoordinateIs(terms, dimension, weight, u);
    UnitKeepsRatios(sqrt, Coordinates(terms, dimension, weight), IndexOf(terms)[t], IndexOf(terms)[u]);
    hide Times, Unit, Coordinates;
  }

  function Sum(s: seq<real>): real {
    if s == [] then 0.0 else Sum(s[..|s| - 1]) + s[|s| - 1]
  }

  lemma {:induction false} SumWithout(s: seq<real>, j: nat)
    requires j < |s|
    ensures Sum(s) == s[j] + Sum(s[..j] + s[j + 1..])
  {
    if j == |s| - 1 {
      assert s[..j] + s[j + 1..] == s[..j];
    } else {
      var front, rest := s[..|s| - 1], s[..j] + s[j + 1..];
      SumWithout(front, j);
      assert rest[..|rest| - 1] == front[..j] + front[j + 1..];
      assert rest[|rest| - 1] == s[|s| - 1];
    }
  }

  lemma {:induction false} SumPermutes(a: seq<real>, b: seq<real>)
    requires multiset(a) == multiset(b)
    ensures Sum(a) == Sum(b)
    decreases |a|
  {
    if |a| == 0 || |b| == 0 {
      assert |multiset(a)| == |a| && |multiset(b)| == |b|;
      assert a == b;
    } else {
      var j, ra, rb := SplitOff(a, b);
      SumPermutes(ra, rb);
      SumWithout(a, 0);
      SumWithout(b, j);
    }
  }

  function Product(w: string -> real, u: string -> real): string -> real {
    t => w(t) * u(t)
  }

  /** The dot product of two embeddings is a sum over the terms. */
  lemma {:induction false} CoordinatesDot(terms: seq<string>, dimension: nat, w: string -> real, u: string -> real)
    requires |terms| <= dimension
    ensures Dot(Coordinates(terms, dimension, w), Coordinates(terms, dimension, u)) == Sum(Map(Product(w, u), terms))
    decreases dimension
  {
    if dimension > 0 {
      var a, b := Coordinates(terms, dimension, w), Coordinates(terms, dimension, u);
      if |terms| < dimension {
        CoordinatesDot(terms, dimension - 1, w, u);
        assert a[..dimension - 1] == Coordinates(terms, dimension - 1, w);
        assert b[..dimension - 1] == Coordinates(terms, dimension - 1, u);
      } else {
        var front := terms[..dimension - 1];
        CoordinatesDot(front, dimension - 1, w, u);
        assert a[..dimension - 1] == Coordinates(front, dimension - 1, w);
        assert b[..dimension - 1] == Coordinates(front, dimension - 1, u);
        assert Map(Product(w, u), terms)[..dimension - 1] == Map(Product(w, u), front);
      }
    }
  }

  lemma DotPermutes(a: seq<string>, b: seq<string>, dimension: nat, w: string -> real, u: string -> real)
    requires multiset(a) == multiset(b) && |a| <= dimension
    ensures Dot(Coordinates(a, dimension, w), Coordinates(a, dimension, u)) ==
            Dot(Coordinates(b, dimension, w), Coordinates(b, dimension, u))
  {
    assert |multiset(a)| == |a| && |multiset(b)| == |b|;
    CoordinatesDot(a, dimension, w, u);
    CoordinatesDot(b, dimension, w, u);
    MapPermutes(Product(w, u), a, b);
    SumPermutes(Map(Product(w, u), a), Map(Product(w, u), b));
  }

  /** Normalized embeddings scale with the lengths of the raw ones. */
  function Scaled(d: real, m: real, n: real): real {
    var x := if m > 0.0 then d / m else d;
    if n > 0.0 then x / n else x
  }

  lemma UnitDot(sqrt: real -> real, a: seq<real>, b: seq<real>)
    requires |a| == |b|
    ensures Dot(Unit(sqrt, a), Unit(sqrt, b)) == Scaled(Dot(a, b), Norm(sqrt, a), Norm(sqrt, b))
  {
    var u := Unit(sqrt, a);
    if Norm(sqrt, a) > 0.0 {
      DotDivide(a, Norm(sqrt, a), b);
    }
    if Norm(sqrt, b) > 0.0 {
      DotSymmetric(u, Unit(sqrt, b));
      DotDivide(b, Norm(sqrt, b), u);
      DotSymmetric(b, u);
    }
  }

  /** Two vocabularies with the same terms give every pair of texts the same
      similarity. */
  lemma SameSimilarity(
    a: seq<string>, b: seq<string>, dimension: nat, sqrt: real -> real, w: string -> real, u: string -> real)
    requires multiset(a) == multiset(b) && |a| <= dimension
    ensures Dot(Unit(sqrt, Coordinates(a, dimension, w)), Unit(sqrt, Coordinates(a, dimension, u))) ==
            Dot(Unit(sqrt, Coordinates(b, dimension, w)), Unit(sqrt, Coordinates(b, dimension, u)))
  {
    UnitDot(sqrt, Coordinates(a, dimension, w), Coordinates(a, dimension, u));
    UnitDot(sqrt, Coordinates(b, dimension, w), Coordinates(b, dimension, u));
    DotPermutes(a, b, dimension, w, u);
    DotPermutes(a, b, dimension, w, w);
    DotPermutes(a, b, dimension, u, u);
  }

  /** And every text the same coordinates, at the places of its terms. */
  lemma SameCoordinates(
    a: seq<string>, b: seq<string>, dimension: nat, sqrt: real -> real, w: string -> real, t: string)
    requires Distinct(a) && Distinct(b) && multiset(a) == multiset(b) && |a| <= dimension && t in a
    ensures t in IndexOf(a) && t in IndexOf(b) && IndexOf(a)[t] < dimension && IndexOf(b)[t] < dimension
    ensures Unit(sqrt, Coordinates(a, dimension, w))[IndexOf(a)[t]] ==
      Unit(sqrt, Coordinates(b, dimension, w))[IndexOf(b)[t]]
  {
    assert |multiset(a)| == |a| && |multiset(b)| == |b|;
    assert t in multiset(a) && t in multiset(b);
    IndexOfIs(a);
    IndexOfIs(b);
    DotPermutes(a, b, dimension, w, w);
    var i :| 0 <= i < |a| && a[i] == t;
    var j :| 0 <= j < |b| && b[j] == t;
    assert Coordinates(a, dimension, w)[i] == Coordinates(b, dimension, w)[j];
  }
}
