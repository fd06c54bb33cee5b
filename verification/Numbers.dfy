/** The finite `f64` numbers over the reals, and how an integer becomes one. */
module Numbers {

  const I64_MIN: int := -0x8000_0000_0000_0000
  const I64_MAX: int := 0x7fff_ffff_ffff_ffff

  type I64 = i: int | I64_MIN <= i <= I64_MAX

  /** Integers of smaller magnitude are exact in an `f64`: its significand has 53 bits. */
  const F64_EXACT: int := 0x20_0000_0000_0000

  /** A finite `f64`. The negative zero is its own value because `total_cmp` tells
      it from `0.0` although `==` does not. */
  datatype F64 = NegZero | Num(r: real) {
    function Real(): real {
      if NegZero? then 0.0 else r
    }
  }

  /** The nearest multiple of `q`, ties to the even one. */
  function NearestMultiple(a: nat, q: nat): nat
    requires q > 0
  {
    var d, r := a / q, a % q;
    if 2 * r < q || (2 * r == q && d % 2 == 0) then d * q else (d + 1) * q
  }

  /** `a` rounded to 53 significant bits, given that its last bit is worth at least `q`. */
  function Rounded(a: nat, q: nat): nat
    requires q > 0
    decreases if a >= q then a - q else 0
  {
    if a < F64_EXACT * q then NearestMultiple(a, q) else Rounded(a, 2 * q)
  }

  /** The cast `i as f64`. */
  function ToF64(i: int): real {
    if i < 0 then -(Rounded(-i, 1) as real) else Rounded(i, 1) as real
  }

  /** No other `i64` converts to the same `f64`. */
  ghost predicate Alone(i: int) {
    forall j: int :: I64_MIN <= j <= I64_MAX && ToF64(j) == ToF64(i) ==> j == i
  }

  /** Below twice the exact range the last bit is worth two. */
  lemma RoundedByTwo(a: nat)
    requires F64_EXACT <= a < 2 * F64_EXACT
    ensures Rounded(a, 1) == if a % 4 == 1 then a - 1 else if a % 4 == 3 then a + 1 else a
  {
    assert Rounded(a, 1) == NearestMultiple(a, 2);
  }

  lemma MultipleAtLeast(d: nat, q: nat, bound: nat)
    requires d >= bound
    ensures d * q >= bound * q
  {
  }

  lemma {:induction false} LargeStaysLarge(a: nat, q: nat)
    requires q > 0 && a >= F64_EXACT * q
    ensures Rounded(a, q) >= F64_EXACT * q
    decreases a - q
  {
    if a < F64_EXACT * (2 * q) {
      var d := a / (2 * q);
      QuotientAtLeast(a, 2 * q, F64_EXACT / 2);
      MultipleAtLeast(d, 2 * q, F64_EXACT / 2);
      MultipleAtLeast(d + 1, 2 * q, F64_EXACT / 2);
    } else {
      LargeStaysLarge(a, 2 * q);
    }
  }

  lemma QuotientAtLeast(a: nat, q: nat, bound: nat)
    requires q > 0 && a >= bound * q
    ensures a / q >= bound
  {
    if a / q < bound {
      assert a == a / q * q + a % q;
      MultipleAtLeast(bound, q, a / q + 1);
    }
  }

  lemma DivisionIs(a: nat, q: nat, d: nat, r: nat)
    requires q > 0 && a == d * q + r && r < q
    ensures a / q == d && a % q == r
  {
    var e := a / q;
    assert a == e * q + a % q;
    if e < d {
      MultipleAtLeast(d, q, e + 1);
    } else if e > d {
      MultipleAtLeast(e, q, d + 1);
    }
  }

  /** What the last bit of an `i64` above twice the exact range can be worth, halved. */
  predicate HalfUnit(h: nat) {
    h in {2, 4, 8, 16, 32, 64, 128, 256, 512}
  }

  /** Rounding where the last bit is worth `q`, twice the unit tried first. */
  lemma InUnit(d: nat, q: nat, r: nat, h: nat)
    requires h > 0 && q == 2 * h && F64_EXACT / 2 <= d < F64_EXACT && r < q
    ensures F64_EXACT * h <= d * q + r < F64_EXACT * q
  {
    MultipleAtLeast(d, q, F64_EXACT / 2);
    MultipleAtLeast(F64_EXACT, q, d + 1);
    Distributes(d, q);
  }

  lemma RoundsTo(d: nat, q: nat, r: nat, h: nat)
    requires h > 0 && q == 2 * h && F64_EXACT / 2 <= d < F64_EXACT && r < q
    ensures F64_EXACT * h <= d * q + r < F64_EXACT * q
    ensures Rounded(d * q + r, h) == if r < h || (r == h && d % 2 == 0) then d * q else (d + 1) * q
  {
    hide Rounded, NearestMultiple;
    var a := d * q + r;
    InUnit(d, q, r, h);
    DivisionIs(a, q, d, r);
    NearestIs(a, q, d, r);
    RoundsInUnit(a, q, h);
  }

  lemma Distributes(d: nat, q: nat)
    ensures (d + 1) * q == d * q + q
  {
  }

  lemma NearestIs(a: nat, q: nat, d: nat, r: nat)
    requires q > 0 && a / q == d && a % q == r
    ensures NearestMultiple(a, q) == if 2 * r < q || (2 * r == q && d % 2 == 0) then d * q else (d + 1) * q
  {
  }

  lemma RoundsInUnit(a: nat, q: nat, h: nat)
    requires h > 0 && q == 2 * h && F64_EXACT * h <= a < F64_EXACT * q
    ensures Rounded(a, h) == NearestMultiple(a, q)
  {
  }

  lemma SplitBy(a: nat, h: nat) returns (d: nat, q: nat, r: nat)
    requires h > 0 && F64_EXACT * h <= a < F64_EXACT * (2 * h)
    ensures q == 2 * h && a == d * q + r && r < q && r == a % q && F64_EXACT / 2 <= d < F64_EXACT
  {
    q := 2 * h;
    d, r := a / q, a % q;
    assert a == d * q + r;
    QuotientAtLeast(a, q, F64_EXACT / 2);
    if d >= F64_EXACT {
      MultipleAtLeast(d, q, F64_EXACT);
    }
  }

  /** Above twice the exact range a neighbour rounds to the same multiple. */
  lemma NearTwin(a: nat, h: nat) returns (twin: nat)
    requires HalfUnit(h) && F64_EXACT * h <= a < F64_EXACT * (2 * h) && a <= I64_MAX
    ensures twin != a && twin <= I64_MAX && F64_EXACT * h <= twin && Rounded(twin, h) == Rounded(a, h)
  {
    hide Rounded, NearestMultiple;
    var d, q, r := SplitBy(a, h);
    RoundsTo(d, q, r, h);
    if (1 <= r && r != h && r != h + 1) || (r == h && d % 2 == 0) || (r == h + 1 && d % 2 == 1) {
      twin := d * q + (r - 1);
      RoundsTo(d, q, r - 1, h);
    } else if r < q - 1 {
      twin := d * q + (r + 1);
      NotLast(a, h);
      RoundsTo(d, q, r + 1, h);
    } else {
      twin := (d + 1) * q + 0;
      assert h == 2 && q == 4;
      RoundsTo(d + 1, q, 0, h);
    }
  }

  lemma NotLast(a: nat, h: nat)
    requires HalfUnit(h) && a <= I64_MAX && a % (2 * h) < 2 * h - 1
    ensures a < I64_MAX
  {
  }

  lemma {:induction false} LargeHasTwin(a: nat, h: nat) returns (twin: nat)
    requires HalfUnit(h) && F64_EXACT * h <= a <= I64_MAX
    ensures twin != a && twin <= I64_MAX && twin >= F64_EXACT * h && Rounded(twin, h) == Rounded(a, h)
    decreases a - h
  {
    if a < F64_EXACT * (2 * h) {
      twin := NearTwin(a, h);
    } else {
      assert HalfUnit(2 * h);
      twin := LargeHasTwin(a, 2 * h);
    }
  }

  lemma {:induction false} LastUnit(a: nat)
    requires a >= F64_EXACT * 512
    ensures Rounded(a, 1) == Rounded(a, 512)
  {
    assert Rounded(a, 1) == Rounded(a, 2) == Rounded(a, 4) == Rounded(a, 8);
    assert Rounded(a, 8) == Rounded(a, 16) == Rounded(a, 32) == Rounded(a, 64);
    assert Rounded(a, 64) == Rounded(a, 128) == Rounded(a, 256) == Rounded(a, 512);
  }

  lemma FirstDoubling(a: nat)
    requires a >= 2 * F64_EXACT
    ensures Rounded(a, 1) == Rounded(a, 2)
  {
  }

  /** An integer whose `f64` is its own: all below the exact range, and every
      fourth in the range above it. */
  predicate OwnF64(i: int) {
    var a := if i < 0 then -i else i;
    a < F64_EXACT || (a < 2 * F64_EXACT && a % 4 == 2)
  }

  /** Another `i64` with the same `f64`. */
  lemma TwinOf(i: int) returns (twin: int)
    requires I64_MIN <= i <= I64_MAX && !OwnF64(i)
    ensures I64_MIN <= twin <= I64_MAX && twin != i && ToF64(twin) == ToF64(i)
  {
    if i == I64_MIN {
      twin := i + 1;
      LastUnit(-i);
      LastUnit(-twin);
      RoundsTo(F64_EXACT - 1, 1024, 1023, 512);
      assert Rounded(-i, 512) == Rounded(-i, 1024) == -i;
      assert Rounded(-twin, 512) == -i;
    } else {
      var a, b := if i < 0 then -i else i, 0;
      if a < 2 * F64_EXACT {
        b := if a % 4 == 1 then a - 1 else a + 1;
        RoundedByTwo(a);
        if b < 2 * F64_EXACT {
          RoundedByTwo(b);
        } else {
          FirstDoubling(b);
          assert Rounded(b, 2) == NearestMultiple(b, 4);
        }
      } else {
        b := LargeHasTwin(a, 2);
        FirstDoubling(a);
        FirstDoubling(b);
      }
      twin := if i < 0 then -b else b;
    }
  }

  /** Exactly these integers share their `f64` with no other `i64`. */
  lemma AloneIff(i: int)
    requires I64_MIN <= i <= I64_MAX
    ensures Alone(i) <==> OwnF64(i)
  {
    if !OwnF64(i) {
      var twin := TwinOf(i);
    } else {
      forall j: int | I64_MIN <= j <= I64_MAX && ToF64(j) == ToF64(i) ensures j == i {
        SameF64(if i < 0 then -i else i, if j < 0 then -j else j);
      }
    }
  }

  lemma SameF64(a: nat, b: nat)
    requires OwnF64(a)
    ensures Rounded(a, 1) == Rounded(b, 1) ==> a == b
    ensures Rounded(b, 1) == 0 ==> b == 0
  {
    if b >= 2 * F64_EXACT {
      FirstDoubling(b);
      LargeStaysLarge(b, 2);
    } else if b >= F64_EXACT {
      RoundedByTwo(b);
    }
    if a >= F64_EXACT {
      RoundedByTwo(a);
    }
  }
}
