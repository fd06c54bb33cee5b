/** The projection matrix of the SVD embedder (`fit_svd` and `embed` in
    crates/veclite/src/embedding/svd.rs) over the reals: modified Gram-Schmidt
    from any starting rows. */
module GramSchmidt {
  import opened Linear

  type Row = seq<real>

  ghost predicate Rectangular(rows: seq<Row>, width: nat) {
    forall i :: 0 <= i < |rows| ==> |rows[i]| == width
  }

  /** Pairwise orthogonal rows, each of unit length or zero. */
  ghost predicate Orthonormal(rows: seq<Row>, width: nat)
    requires Rectangular(rows, width)
  {
    && (forall i, j :: 0 <= i < j < |rows| ==> Dot(rows[i], rows[j]) == 0.0)
    && (forall i :: 0 <= i < |rows| ==> Dot(rows[i], rows[i]) == 1.0 || IsZero(rows[i]))
  }

  // ----- combinations of rows -----------------------------------------------

  function Zeros(width: nat): (r: Row)
    ensures |r| == width && IsZero(r)
  {
    seq(width, _ => 0.0)
  }

  /** `coefficients[0] * rows[0] + coefficients[1] * rows[1] + ...` */
  function Combination(coefficients: seq<real>, rows: seq<Row>, width: nat): (r: Row)
    requires |coefficients| == |rows|
    requires Rectangular(rows, width)
    ensures |r| == width
  {
    if rows == [] then Zeros(width)
    else
      var n := |rows| - 1;
      MinusScaled(Combination(coefficients[..n], rows[..n], width), -coefficients[n], rows[n])
  }

  /** `v` differs from `start` by a combination of rows. */
  ghost predicate Reduced(start: Row, v: Row, coefficients: seq<real>, rows: seq<Row>, width: nat)
    requires |coefficients| == |rows| && Rectangular(rows, width)
  {
    |v| == |start| == width && MinusScaled(v, -1.0, Combination(coefficients, rows, width)) == start
  }

  lemma ReducedNothing(start: Row)
    ensures Reduced(start, start, [], [], |start|)
  {
    var z := Combination([], [], |start|);
    forall i | 0 <= i < |start| ensures start[i] - -1.0 * z[i] == start[i] {
    }
    assert MinusScaled(start, -1.0, z) == start;
  }

  /** Subtracting a multiple of the next row, and taking note of it. */
  lemma ReducedStep(start: Row, v: Row, coefficients: seq<real>, rows: seq<Row>, width: nat, c: real, row: Row)
    requires |coefficients| == |rows| && Rectangular(rows, width) && |row| == width
    requires Reduced(start, v, coefficients, rows, width)
    ensures Reduced(start, MinusScaled(v, c, row), coefficients + [c], rows + [row], width)
  {
    var before, after := Combination(coefficients, rows, width), Combination(coefficients + [c], rows + [row], width);
    assert (coefficients + [c])[..|rows|] == coefficients && (rows + [row])[..|rows|] == rows;
    var w := MinusScaled(v, c, row);
    forall i | 0 <= i < width ensures w[i] - -1.0 * after[i] == start[i] {
      assert after[i] == before[i] - -c * row[i];
      assert MinusScaled(v, -1.0, before)[i] == start[i];
      Cancels(v[i], c, row[i], before[i]);
    }
    assert MinusScaled(w, -1.0, after) == start;
  }

  lemma Cancels(v: real, c: real, r: real, b: real)
    ensures (v - c * r) - -1.0 * (b - -c * r) == v - -1.0 * b
  {
  }

  lemma Restored(v: real, norm: real, r: real, b: real, a: real, s: real)
    requires a == b - -norm * r && s == v - -1.0 * b && v == norm * r
    ensures a == s
  {
  }

  /** The last step: what is left is a multiple of the row that was kept. */
  lemma ReducedToRow(start: Row, v: Row, coefficients: seq<real>, rows: seq<Row>, width: nat, norm: real, row: Row)
    requires |coefficients| == |rows| && Rectangular(rows, width) && |row| == width
    requires Reduced(start, v, coefficients, rows, width)
    requires forall i :: 0 <= i < width ==> v[i] == norm * row[i]
    ensures Combination(coefficients + [norm], rows + [row], width) == start
  {
    var before := Combination(coefficients, rows, width);
    var after := Combination(coefficients + [norm], rows + [row], width);
    assert after == MinusScaled(before, -norm, row) by {
      assert (coefficients + [norm])[..|rows|] == coefficients && (rows + [row])[..|rows|] == rows;
    }
    assert start == MinusScaled(v, -1.0, before);
    RestoredRow(start, v, before, after, norm, row);
  }

  lemma RestoredRow(start: Row, v: Row, before: Row, after: Row, norm: real, row: Row)
    requires |v| == |before| == |row| && after == MinusScaled(before, -norm, row) &&
      start == MinusScaled(v, -1.0, before)
    requires forall i :: 0 <= i < |v| ==> v[i] == norm * row[i]
    ensures after == start
  {
    forall i | 0 <= i < |v| ensures after[i] == start[i] {
      Restored(v[i], norm, row[i], before[i], after[i], start[i]);
    }
  }

  // ----- the loops ----------------------------------------------------------

  method DotProduct(a: seq<real>, b: seq<real>) returns (sum: real)
    requires |a| == |b|
    ensures sum == Dot(a, b)
  {
    sum := 0.0;
    for i := 0 to |a|
      invariant sum == Dot(a[..i], b[..i])
    {
      assert a[..i + 1][..i] == a[..i] && b[..i + 1][..i] == b[..i];
      sum := sum + a[i] * b[i];
    }
    assert a[..|a|] == a && b[..|b|] == b;
  }

  /** `*v -= c * p`, component by component. */
  method SubtractScaled(v: array<real>, c: real, row: Row)
    requires v.Length == |row|
    modifies v
    ensures v[..] == MinusScaled(old(v[..]), c, row)
  {
    for i := 0 to v.Length
      invariant forall j :: 0 <= j < i ==> v[j] == old(v[j]) - c * row[j]
      invariant forall j :: i <= j < v.Length ==> v[j] == old(v[j])
    {
      v[i] := v[i] - c * row[i];
    }
  }

  method DivideBy(v: array<real>, c: real)
    requires c != 0.0
    modifies v
    ensures v[..] == Divide(old(v[..]), c)
  {
    for i := 0 to v.Length
      invariant forall j :: 0 <= j < i ==> v[j] == old(v[j]) / c
      invariant forall j :: i <= j < v.Length ==> v[j] == old(v[j])
    {
      v[i] := v[i] / c;
    }
  }

  /** After subtracting its share of a row a vector is orthogonal to it, and stays
      orthogonal to the rows before. */
  lemma StaysOrthogonal(v: Row, row: Row, c: real, other: Row)
    requires |v| == |row| == |other| && Dot(v, other) == 0.0 && Dot(row, other) == 0.0
    ensures Dot(MinusScaled(v, c, row), other) == 0.0
  {
    hide Dot;
    DotMinusScaled(v, c, row, other);
    NothingTaken(Dot(MinusScaled(v, c, row), other), Dot(v, other), c, Dot(row, other));
  }

  lemma NothingTaken(d: real, x: real, c: real, y: real)
    requires d == x - c * y && y == 0.0
    ensures d == x
  {
  }

  lemma BecomesOrthogonal(v: Row, row: Row)
    requires |v| == |row| && Dot(row, row) > 0.0
    ensures Dot(MinusScaled(v, Dot(v, row) / Dot(row, row), row), row) == 0.0
  {
    DotMinusScaled(v, Dot(v, row) / Dot(row, row), row, row);
    QuotientTimes(Dot(v, row), Dot(row, row));
  }

  ghost predicate OrthogonalTo(v: Row, rows: seq<Row>, width: nat)
    requires |v| == width && Rectangular(rows, width)
  {
    forall i :: 0 <= i < |rows| ==> Dot(v, rows[i]) == 0.0
  }

  /** Orthogonalize a vector against every row in turn. The coefficients say what
      was subtracted. */
  method Orthogonalize(v: array<real>, rows: seq<Row>) returns (ghost coefficients: seq<real>)
    requires Rectangular(rows, v.Length) && Orthonormal(rows, v.Length)
    modifies v
    ensures OrthogonalTo(v[..], rows, v.Length)
    ensures |coefficients| == |rows| && Reduced(old(v[..]), v[..], coefficients, rows, v.Length)
  {
    coefficients := [];
    ReducedNothing(v[..]);
    for j := 0 to |rows|
      invariant |coefficients| == j
      invariant Rectangular(rows[..j], v.Length) && OrthogonalTo(v[..], rows[..j], v.Length)
      invariant Reduced(old(v[..]), v[..], coefficients, rows[..j], v.Length)
    {
      ghost var before := v[..];
      var dot := DotProduct(v[..], rows[j]);
      var normSq := DotProduct(rows[j], rows[j]);
      var c := 0.0;
      if normSq > 0.0 {
        c := dot / normSq;
        SubtractScaled(v, c, rows[j]);
        BecomesOrthogonal(before, rows[j]);
      } else {
        DotSelf(rows[j]);
        DotSymmetric(before, rows[j]);
        DotWithZero(rows[j], before);
        NothingSubtracted(before, rows[j]);
      }
      OneMoreOrthogonal(before, c, rows, j, v.Length);
      ReducedStep(old(v[..]), before, coefficients, rows[..j], v.Length, c, rows[j]);
      coefficients := coefficients + [c];
      assert rows[..j + 1] == rows[..j] + [rows[j]];
    }
    assert rows[..|rows|] == rows;
  }

  lemma NothingSubtracted(v: Row, row: Row)
    requires |v| == |row|
    ensures MinusScaled(v, 0.0, row) == v
  {
  }

  lemma OneMoreOrthogonal(v: Row, c: real, rows: seq<Row>, j: nat, width: nat)
    requires Rectangular(rows, width) && Orthonormal(rows, width) && |v| == width && j < |rows|
    requires Rectangular(rows[..j], width) && OrthogonalTo(v, rows[..j], width)
    requires Dot(MinusScaled(v, c, rows[j]), rows[j]) == 0.0
    ensures Rectangular(rows[..j + 1], width) && OrthogonalTo(MinusScaled(v, c, rows[j]), rows[..j + 1], width)
  {
    forall i | 0 <= i < j + 1 ensures Dot(MinusScaled(v, c, rows[j]), rows[i]) == 0.0 {
      if i < j {
        assert rows[..j][i] == rows[i];
        DotSymmetric(rows[j], rows[i]);
        StaysOrthogonal(v, rows[j], c, rows[i]);
      }
    }
  }

  lemma OrthonormalAppend(rows: seq<Row>, row: Row, width: nat)
    requires Rectangular(rows, width) && Orthonormal(rows, width) && |row| == width && OrthogonalTo(row, rows, width)
    requires Dot(row, row) == 1.0 || IsZero(row)
    ensures Rectangular(rows + [row], width) && Orthonormal(rows + [row], width)
  {
    var all := rows + [row];
    forall i, j | 0 <= i < j < |all| ensures Dot(all[i], all[j]) == 0.0 {
      if j == |rows| {
        DotSymmetric(row, rows[i]);
      }
    }
  }

  lemma DividedStaysOrthogonal(v: Row, c: real, rows: seq<Row>, width: nat)
    requires c != 0.0 && |v| == width && Rectangular(rows, width) && OrthogonalTo(v, rows, width)
    ensures OrthogonalTo(Divide(v, c), rows, width)
  {
    forall i | 0 <= i < |rows| ensures Dot(Divide(v, c), rows[i]) == 0.0 {
      DotDivide(v, c, rows[i]);
    }
  }

  lemma DividedBack(v: Row, c: real)
    requires c != 0.0
    ensures forall i :: 0 <= i < |v| ==> v[i] == c * Divide(v, c)[i]
  {
    forall i | 0 <= i < |v| ensures v[i] == c * Divide(v, c)[i] {
      QuotientTimes(v[i], c);
    }
  }

  /** Divide a vector by its length, unless it is zero; the length comes back. */
  method Normalize(v: array<real>, sqrt: real -> real) returns (norm: real)
    requires SqrtLaw(sqrt)
    modifies v
    ensures norm == Norm(sqrt, old(v[..])) >= 0.0
    ensures v[..] == if norm > 0.0 then Divide(old(v[..]), norm) else old(v[..])
    ensures Dot(v[..], v[..]) == 1.0 || IsZero(v[..])
    ensures forall i :: 0 <= i < v.Length ==> old(v[..])[i] == norm * v[..][i]
  {
    ghost var before := v[..];
    NormZero(sqrt, before);
    var square := DotProduct(v[..], v[..]);
    norm := sqrt(square);
    if norm > 0.0 {
      DivideBy(v, norm);
      NormalizedIsUnit(sqrt, before);
      hide *;
      DividedBack(before, norm);
    } else {
      forall i | 0 <= i < |before| ensures before[i] == norm * before[i] {
        assert before[i] == 0.0;
      }
    }
  }

  /** Every starting row is a combination of the resulting rows up to its own,
      with a coefficient for its own that is not negative. */
  ghost predicate Spans(rows: seq<Row>, coefficients: seq<seq<real>>, start: seq<Row>, width: nat) {
    && |rows| == |coefficients| <= |start|
    && Rectangular(rows, width)
    && forall i :: 0 <= i < |rows| ==>
      && |coefficients[i]| == i + 1 && coefficients[i][i] >= 0.0
      && Combination(coefficients[i], rows[..i + 1], width) == start[i]
  }

  lemma SpansAppend(rows: seq<Row>, coefficients: seq<seq<real>>, start: seq<Row>, width: nat, row: Row, cs: seq<real>)
    requires Spans(rows, coefficients, start, width) && |rows| < |start| && |row| == width
    requires |cs| == |rows| + 1 && cs[|rows|] >= 0.0 && Rectangular(rows + [row], width)
    requires Combination(cs, rows + [row], width) == start[|rows|]
    ensures Spans(rows + [row], coefficients + [cs], start, width)
  {
    var all, css := rows + [row], coefficients + [cs];
    forall i | 0 <= i < |all|
      ensures |css[i]| == i + 1 && css[i][i] >= 0.0 && Combination(css[i], all[..i + 1], width) == start[i]
    {
      assert all[..i + 1] == if i < |rows| then rows[..i + 1] else all;
    }
  }

  /** Gram-Schmidt: the rows left are pairwise orthogonal, each of unit length or
      zero, and every starting row is a combination of those up to its own. */
  method FitProjection(
    start: seq<Row>, width: nat, sqrt: real -> real) returns (rows: seq<Row>, ghost coefficients: seq<seq<real>>)
    requires Rectangular(start, width) && SqrtLaw(sqrt)
    ensures |rows| == |start| && Rectangular(rows, width)
    ensures Orthonormal(rows, width)
    ensures Spans(rows, coefficients, start, width)
  {
    rows, coefficients := [], [];
    for i := 0 to |start|
      invariant |rows| == i && Rectangular(rows, width) && Orthonormal(rows, width)
      invariant Spans(rows, coefficients, start, width)
    {
      var row, cs := NextRow(start[i], rows, width, sqrt);
      SpansAppend(rows, coefficients, start, width, row, cs);
      rows, coefficients := rows + [row], coefficients + [cs];
    }
  }

  /** One starting row, orthogonalized against the rows so far and normalized. */
  method NextRow(
    from: Row, rows: seq<Row>, width: nat, sqrt: real -> real) returns (row: Row, ghost coefficients: seq<real>)
    requires |from| == width && Rectangular(rows, width) && Orthonormal(rows, width) && SqrtLaw(sqrt)
    ensures |row| == width && Rectangular(rows + [row], width) && Orthonormal(rows + [row], width)
    ensures |coefficients| == |rows| + 1 && coefficients[|rows|] >= 0.0
    ensures Combination(coefficients, rows + [row], width) == from
  {
    hide Dot, SqrtLaw;
    var v := new real[width](j requires 0 <= j < width => from[j]);
    assert v[..] == from;
    ghost var cs := Orthogonalize(v, rows);
    ghost var left := v[..];
    var norm := Normalize(v, sqrt);
    row := v[..];
    hide *;
    RowKept(rows, left, norm, row, width);
    ReducedToRow(from, left, cs, rows, width, norm, row);
    coefficients := cs + [norm];
  }

  lemma RowKept(rows: seq<Row>, left: Row, norm: real, row: Row, width: nat)
    requires Rectangular(rows, width) && Orthonormal(rows, width) && |left| == width && OrthogonalTo(left, rows, width)
    requires row == if norm > 0.0 then Divide(left, norm) else left
    requires Dot(row, row) == 1.0 || IsZero(row)
    ensures Rectangular(rows + [row], width) && Orthonormal(rows + [row], width)
  {
    if norm > 0.0 {
      DividedStaysOrthogonal(left, norm, rows, width);
    }
    OrthonormalAppend(rows, row, width);
  }

  // ----- embedding ----------------------------------------------------------

  /** The base vector's coordinate along every row. */
  function Projected(rows: seq<Row>, base: Row): (r: seq<real>)
    requires Rectangular(rows, |base|)
    ensures |r| == |rows| && forall i :: 0 <= i < |rows| ==> r[i] == Dot(base, rows[i])
  {
    seq(|rows|, i requires 0 <= i < |rows| => Dot(base, rows[i]))
  }

  method Embed(rows: seq<Row>, base: Row) returns (r: seq<real>)
    requires Rectangular(rows, |base|)
    ensures r == Projected(rows, base)
  {
    r := [];
    for i := 0 to |rows|
      invariant |r| == i && forall j :: 0 <= j < i ==> r[j] == Dot(base, rows[j])
    {
      var x := DotProduct(base, rows[i]);
      r := r + [x];
    }
  }

  /** What is left of the base after taking away its first `n` coordinates. */
  function Residue(rows: seq<Row>, base: Row): (v: Row)
    requires Rectangular(rows, |base|)
    ensures |v| == |base|
  {
    if rows == [] then base
    else
      var n := |rows| - 1;
      MinusScaled(Residue(rows[..n], base), Dot(base, rows[n]), rows[n])
  }

  lemma {:induction false} ResidueAlong(rows: seq<Row>, base: Row, row: Row)
    requires Rectangular(rows, |base|) && |row| == |base| && forall i :: 0 <= i < |rows| ==> Dot(rows[i], row) == 0.0
    ensures Dot(Residue(rows, base), row) == Dot(base, row)
  {
    if rows != [] {
      var n := |rows| - 1;
      ResidueAlong(rows[..n], base, row);
      DotMinusScaled(Residue(rows[..n], base), Dot(base, rows[n]), rows[n], row);
      NothingTaken(Dot(Residue(rows, base), row), Dot(base, row), Dot(base, rows[n]), Dot(rows[n], row));
    }
  }

  lemma SquareTaken(vv: real, uv: real, rv: real, ur: real, rr: real, uu: real, x: real)
    requires vv == uv - x * rv && uv == uu - x * ur && rv == ur - x * rr && ur == x
    requires rr == 1.0 || (rr == 0.0 && x == 0.0)
    ensures vv == uu - x * x
  {
  }

  /** Subtracting a coordinate takes its square off the squared length. */
  lemma CoordinateTaken(u: Row, row: Row, x: real)
    requires |u| == |row| && Dot(u, row) == x && (Dot(row, row) == 1.0 || IsZero(row))
    ensures Dot(MinusScaled(u, x, row), MinusScaled(u, x, row)) == Dot(u, u) - x * x
  {
    hide Dot;
    var v := MinusScaled(u, x, row);
    var vv, uv, rv, ur, rr, uu := Dot(v, v), Dot(u, v), Dot(row, v), Dot(u, row), Dot(row, row), Dot(u, u);
    assert vv == uv - x * rv by {
      DotMinusScaled(u, x, row, v);
    }
    assert uv == uu - x * ur by {
      DotSymmetric(u, v);
      DotSymmetric(row, u);
      DotMinusScaled(u, x, row, u);
    }
    assert rv == ur - x * rr by {
      DotSymmetric(row, v);
      DotMinusScaled(u, x, row, row);
    }
    assert rr == 1.0 || (rr == 0.0 && x == 0.0) by {
      if IsZero(row) {
        DotSymmetric(row, u);
        DotWithZero(row, u);
        DotWithZero(row, row);
      }
    }
    hide *;
    SquareTaken(vv, uv, rv, ur, rr, uu, x);
  }

  lemma DotSnoc(v: seq<real>)
    ensures v != [] ==> Dot(v, v) == Dot(v[..|v| - 1], v[..|v| - 1]) + v[|v| - 1] * v[|v| - 1]
    ensures v == [] ==> Dot(v, v) == 0.0
  {
  }

  /** An embedding is never longer than the vector it projects. */
  lemma {:induction false} EmbeddingNotLonger(rows: seq<Row>, base: Row)
    requires Rectangular(rows, |base|) && Orthonormal(rows, |base|)
    ensures Dot(Projected(rows, base), Projected(rows, base)) + Dot(Residue(rows, base), Residue(rows, base)) ==
      Dot(base, base)
    ensures Dot(Projected(rows, base), Projected(rows, base)) <= Dot(base, base)
  {
    hide Dot;
    DotSelf(Residue(rows, base));
    DotSnoc(Projected(rows, base));
    if rows != [] {
      var n := |rows| - 1;
      EmbeddingNotLonger(rows[..n], base);
      var u, x := Residue(rows[..n], base), Dot(base, rows[n]);
      ResidueAlong(rows[..n], base, rows[n]);
      CoordinateTaken(u, rows[n], x);
      assert Projected(rows, base)[..n] == Projected(rows[..n], base);
    }
  }
}
