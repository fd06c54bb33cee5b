/** The value types every component shares: options and results, JSON payload
    values, points, and the errors of the public API. */
module Core {
  import opened Numbers

  datatype Option<+T> = None | Some(value: T)

  datatype Result<+T, +E> = Success(value: T) | Failure(error: E)

  datatype Error =
    | InvalidArgument
    | DimensionMismatch(expected: nat, got: nat)
    | CollectionNotFound
    | AlreadyExists
    | UnsupportedProvider
    | Corrupt

  /** A JSON value. */
  datatype Value =
    | Null
    | Bool(b: bool)
    | Int(i: int)
    | Float(f: F64)
    | Str(s: string)
    | Array(items: seq<Value>)
    | Object(fields: map<string, Value>)
  {
    function AsStr(): Option<string> {
      if Str? then Some(s) else None
    }

    function AsBool(): Option<bool> {
      if Bool? then Some(b) else None
    }

    /** An integer literal outside the `i64` range is still a number, but not an `i64`. */
    function AsI64(): Option<int> {
      if Int? && I64_MIN <= i <= I64_MAX then Some(i) else None
    }

    function AsF64(): Option<F64> {
      match this
      case Int(i) => Some(Num(ToF64(i)))
      case Float(f) => Some(f)
      case _ => None
    }
  }

  datatype SparseVector = SparseVector(indices: seq<nat>, values: seq<real>)

  datatype Point = Point(id: string, vector: seq<real>, sparse: Option<SparseVector>, payload: Option<Value>)

  datatype IndexKind = Keyword | Integer | Floating

  datatype Metric = Cosine | Euclidean | DotProduct

  /** The characters of Unicode's White_Space property. */
  predicate IsWhitespace(c: char) {
    || '\t' <= c <= '\r' || c == ' ' || c == '\U{85}' || c == '\U{A0}' || c == '\U{1680}'
    || '\U{2000}' <= c <= '\U{200A}' || c == '\U{2028}' || c == '\U{2029}' || c == '\U{202F}'
    || c == '\U{205F}' || c == '\U{3000}'
  }

  function Min(a: nat, b: nat): nat {
    if a <= b then a else b
  }

  function Max(a: nat, b: nat): nat {
    if a <= b then b else a
  }

  /** The order in which a slot table is walked: strictly increasing slots. */
  ghost predicate Distinct<T>(s: seq<T>) {
    forall i, j :: 0 <= i < j < |s| ==> s[i] != s[j]
  }

  function Elems<T>(s: seq<T>): set<T> {
    set x | x in s
  }
}
