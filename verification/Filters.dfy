/** Payload filters (crates/veclite/src/filter/mod.rs): evaluation of a filter
    over one stored payload. This is what every index-assisted search is
    compared with. */
module Filters {
  import opened Core
  import opened Numbers

  datatype MatchValue = Word(s: string) | Whole(i: I64) | Flag(b: bool) {
    /** Numbers compare as `f64`, so `Whole(2024)` matches the stored `2024.0`. */
    predicate MatchesStored(stored: Value) {
      match this
      case Word(s) => stored.AsStr() == Some(s)
      case Flag(b) => stored.AsBool() == Some(b)
      case Whole(i) =>
        || stored.AsI64() == Some(i as int)
        || (stored.AsF64().Some? && stored.AsF64().value.Real() == ToF64(i))
    }
  }

  datatype Range = Range(gt: Option<real>, gte: Option<real>, lt: Option<real>, lte: Option<real>) {
    predicate Contains(x: real) {
      && (gt.None? || x > gt.value)
      && (gte.None? || x >= gte.value)
      && (lt.None? || x < lt.value)
      && (lte.None? || x <= lte.value)
    }
  }

  datatype Condition =
    | Eq(key: string, value: MatchValue)
    | In(key: string, values: seq<MatchValue>)
    | InRange(key: string, range: Range)
    | Exists(key: string)
    | Nested(filter: Filter)
  {
    predicate Matches(payload: Option<Value>)
      decreases this
    {
      match this
      case Eq(key, value) =>
        var stored := Lookup(payload, key);
        stored.Some? && value.MatchesStored(stored.value)
      case In(key, values) =>
        var stored := Lookup(payload, key);
        stored.Some? && exists i :: 0 <= i < |values| && values[i].MatchesStored(stored.value)
      case InRange(key, range) =>
        var stored := Lookup(payload, key);
        stored.Some? && stored.value.AsF64().Some? && range.Contains(stored.value.AsF64().value.Real())
      case Exists(key) => Lookup(payload, key).Some?
      case Nested(filter) => filter.Matches(payload)
    }

    predicate Supported()
      decreases this
    {
      match this
      case Nested(filter) => filter.Validate()
      case _ => '.' !in key
    }
  }

  datatype Filter = Filter(must: seq<Condition>, should: seq<Condition>, mustNot: seq<Condition>) {
    predicate Matches(payload: Option<Value>)
      decreases this
    {
      && (forall i :: 0 <= i < |must| ==> must[i].Matches(payload))
      && (should == [] || exists i :: 0 <= i < |should| && should[i].Matches(payload))
      && !(exists i :: 0 <= i < |mustNot| && mustNot[i].Matches(payload))
    }

    /** Nested-path keys are rejected before evaluation. */
    predicate Validate()
      decreases this
    {
      && (forall i :: 0 <= i < |must| ==> must[i].Supported())
      && (forall i :: 0 <= i < |should| ==> should[i].Supported())
      && (forall i :: 0 <= i < |mustNot| ==> mustNot[i].Supported())
    }

    predicate IsEmpty() {
      must == [] && should == [] && mustNot == []
    }
  }

  const NO_FILTER := Filter([], [], [])

  /** Only top-level keys of an object payload are addressed. */
  function Lookup(payload: Option<Value>, key: string): Option<Value> {
    if payload.Some? && payload.value.Object? && key in payload.value.fields
    then Some(payload.value.fields[key])
    else None
  }
}
