/** What filters mean, as laws that say nothing of how they are evaluated: clauses are
    conjunction, disjunction and negation, ranges are intervals, and no key with a dot
    gets past validation at any depth. */
module FilterLaws {
  import opened Core
  import opened Filters
  import opened Numbers

  function Must(cs: seq<Condition>): Filter {
    Filter(cs, [], [])
  }

  function Should(cs: seq<Condition>): Filter {
    Filter([], cs, [])
  }

  function MustNot(cs: seq<Condition>): Filter {
    Filter([], [], cs)
  }

  // ----- clauses ------------------------------------------------------------

  /** The three clauses hold together; the empty filter matches everything. */
  lemma ClausesConjoin(f: Filter, p: Option<Value>)
    ensures f.Matches(p) <==> Must(f.must).Matches(p) && Should(f.should).Matches(p) && MustNot(f.mustNot).Matches(p)
    ensures NO_FILTER.Matches(p)
  {
  }

  /** `must` is conjunction, `must_not` negation, and a `should` that is not empty is
      disjunction. */
  lemma BooleanLaws(f: Filter, g: Filter, p: Option<Value>)
    ensures Must([Nested(f), Nested(g)]).Matches(p) <==> f.Matches(p) && g.Matches(p)
    ensures Should([Nested(f), Nested(g)]).Matches(p) <==> f.Matches(p) || g.Matches(p)
    ensures MustNot([Nested(f)]).Matches(p) <==> !f.Matches(p)
    ensures Must([Nested(f)]).Matches(p) <==> f.Matches(p)
    ensures Should([Nested(f)]).Matches(p) <==> f.Matches(p)
  {
    var both := [Nested(f), Nested(g)];
    assert both[0].Matches(p) <==> f.Matches(p);
    assert both[1].Matches(p) <==> g.Matches(p);
    assert [Nested(f)][0].Matches(p) <==> f.Matches(p);
  }

  /** What each clause is, condition by condition. */
  lemma EachClause(cs: seq<Condition>, p: Option<Value>)
    ensures Must(cs).Matches(p) <==> forall c :: c in cs ==> c.Matches(p)
    ensures MustNot(cs).Matches(p) <==> forall c :: c in cs ==> !c.Matches(p)
    ensures Should(cs).Matches(p) <==> cs == [] || exists c :: c in cs && c.Matches(p)
  {
    forall i | 0 <= i < |cs| ensures cs[i] in cs {
    }
    assert MustNot(cs).Matches(p) <==> forall i :: 0 <= i < |cs| ==> !cs[i].Matches(p);
  }

  /** A `should` that is not empty fails exactly where the same conditions pass as
      `must_not`. */
  lemma DeMorgan(cs: seq<Condition>, p: Option<Value>)
    ensures cs != [] ==> (Should(cs).Matches(p) <==> !MustNot(cs).Matches(p))
    ensures cs == [] ==> Should(cs).Matches(p) && MustNot(cs).Matches(p)
  {
  }

  // ----- conditions ---------------------------------------------------------

  /** A key that is not there matches nothing but a negation. */
  lemma MissingKey(p: Option<Value>, c: Condition)
    requires !c.Nested? && (p.None? || !p.value.Object? || c.key !in p.value.fields)
    ensures !c.Matches(p) && MustNot([c]).Matches(p)
  {
    assert [c][0] == c;
  }

  /** Membership in a list is equality with one of its values. */
  lemma InIsSomeEq(key: string, values: seq<MatchValue>, p: Option<Value>)
    ensures In(key, values).Matches(p) <==> exists i :: 0 <= i < |values| && Eq(key, values[i]).Matches(p)
  {
  }

  function Above(key: string, x: real): Condition {
    InRange(key, Range(Some(x), None, None, None))
  }

  function AtLeast(key: string, x: real): Condition {
    InRange(key, Range(None, Some(x), None, None))
  }

  function Below(key: string, x: real): Condition {
    InRange(key, Range(None, None, Some(x), None))
  }

  function AtMost(key: string, x: real): Condition {
    InRange(key, Range(None, None, None, Some(x)))
  }

  /** The stored number under a key, as a filter reads it. */
  function NumberAt(p: Option<Value>, key: string): Option<real> {
    if Lookup(p, key).Some? && Lookup(p, key).value.AsF64().Some? then Some(Lookup(p, key).value.AsF64().value.Real())
    else None
  }

  /** Each bound is one side of the number line: `gt` and `lte` split it, so do `gte` and
      `lt`, and they differ at the bound itself, which is above what is below it. Only
      numbers are in a range. */
  lemma BoundsAreSides(key: string, x: real, p: Option<Value>)
    ensures NumberAt(p, key).None? ==>
      && !Above(key, x).Matches(p) && !AtLeast(key, x).Matches(p)
      && !Below(key, x).Matches(p) && !AtMost(key, x).Matches(p)
    ensures NumberAt(p, key).Some? ==>
      && (Above(key, x).Matches(p) <==> !AtMost(key, x).Matches(p))
      && (AtLeast(key, x).Matches(p) <==> !Below(key, x).Matches(p))
      && (AtLeast(key, x).Matches(p) && AtMost(key, x).Matches(p) <==> NumberAt(p, key).value == x)
      && (Above(key, x).Matches(p) ==> AtLeast(key, x).Matches(p) && Above(key, x - 1.0).Matches(p))
  {
  }

  /** A stored integer against bounds next to it. */
  lemma BoundsExample(n: I64, p: Option<Value>, key: string)
    requires p == Some(Object(map[key := Int(n)])) && -1000 <= n <= 1000
    ensures var x := n as real;
      && AtLeast(key, x).Matches(p) && AtMost(key, x).Matches(p)
      && !Above(key, x).Matches(p) && !Below(key, x).Matches(p)
      && Above(key, x - 1.0).Matches(p) && Below(key, x + 1.0).Matches(p)
      && Eq(key, Whole(n)).Matches(p)
  {
    SmallIsExact(n);
  }

  lemma SmallIsExact(n: I64)
    requires -1000 <= n <= 1000
    ensures ToF64(n) == n as real
  {
  }

  /** A range is its bounds together. */
  lemma RangeIsItsBounds(key: string, gt: real, gte: real, lt: real, lte: real, p: Option<Value>)
    ensures InRange(key, Range(Some(gt), Some(gte), Some(lt), Some(lte))).Matches(p) <==>
      && Above(key, gt).Matches(p) && AtLeast(key, gte).Matches(p)
      && Below(key, lt).Matches(p) && AtMost(key, lte).Matches(p)
  {
  }

  // ----- validation ---------------------------------------------------------

  /** A condition anywhere in a filter reads this key. */
  ghost predicate Reads(f: Filter, key: string)
    decreases f
  {
    || (exists i :: 0 <= i < |f.must| && ConditionReads(f.must[i], key))
    || (exists i :: 0 <= i < |f.should| && ConditionReads(f.should[i], key))
    || (exists i :: 0 <= i < |f.mustNot| && ConditionReads(f.mustNot[i], key))
  }

  ghost predicate ConditionReads(c: Condition, key: string)
    decreases c
  {
    if c.Nested? then Reads(c.filter, key) else c.key == key
  }

  /** Validation passes exactly the filters that read no key with a dot. */
  lemma {:induction false} ValidateIff(f: Filter)
    ensures f.Validate() <==> forall key :: Reads(f, key) ==> '.' !in key
    decreases f
  {
    forall i | 0 <= i < |f.must|
      ensures f.must[i].Supported() <==> forall key :: ConditionReads(f.must[i], key) ==> '.' !in key
    {
      SupportedIff(f.must[i]);
    }
    forall i | 0 <= i < |f.should|
      ensures f.should[i].Supported() <==> forall key :: ConditionReads(f.should[i], key) ==> '.' !in key
    {
      SupportedIff(f.should[i]);
    }
    forall i | 0 <= i < |f.mustNot|
      ensures f.mustNot[i].Supported() <==> forall key :: ConditionReads(f.mustNot[i], key) ==> '.' !in key
    {
      SupportedIff(f.mustNot[i]);
    }
  }

  lemma {:induction false} SupportedIff(c: Condition)
    ensures c.Supported() <==> forall key :: ConditionReads(c, key) ==> '.' !in key
    decreases c
  {
    if c.Nested? {
      ValidateIff(c.filter);
    } else {
      assert ConditionReads(c, c.key);
    }
  }
}
