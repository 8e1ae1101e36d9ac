/**
 * The dimensions of a generated container and its row-major index
 * arithmetic.  The constructor takes one to three dimensions, pads the
 * missing ones with 1 and rejects non-positive ones; the backing arrays
 * have length `__l = __dim0 * __dim1 * __dim2`, and `get(i0, i1)` /
 * `get(i0, i1, i2)` address slot `i0 * __dim1 + i1` /
 * `(i0 * __dim1 + i1) * __dim2 + i2`.  All of it is Java `int` arithmetic,
 * written out here with its wrap-around.
 */
module Flatten {
  import opened Wrappers
  import opened JavaValues

  datatype Dims = Dims(d0: int, d1: int, d2: int)

  datatype DimError =
    | NoDimensions          // "At least one dimension is required."
    | TooManyDimensions     // "Only up to three dimensions are supported."
    | NonPositiveDimension  // "dimensions must be positive"
    | SizeOverflow          // the product of the dimensions is not an `int`

  function Product(ds: seq<int>): int
  {
    if ds == [] then 1 else ds[0] * Product(ds[1..])
  }

  predicate Positive(d: Dims)
  {
    d.d0 > 0 && d.d1 > 0 && d.d2 > 0
  }

  /** The mathematical number of slots. */
  function Volume(d: Dims): int
  {
    d.d0 * d.d1 * d.d2
  }

  /** The constructor's checks, in its order, and the padding with 1. */
  function ParseDimensions(dims: seq<JInt>): (r: Result<Dims, DimError>)
    ensures r == Err(NoDimensions) <==> |dims| == 0
    ensures r == Err(TooManyDimensions) <==> |dims| > 3
    ensures r.Ok? <==> 1 <= |dims| <= 3 && forall i :: 0 <= i < |dims| ==> dims[i] > 0
    ensures r.Ok? ==> Positive(r.value) && Volume(r.value) == Product(dims)
    ensures r.Ok? ==> r.value.d0 == dims[0] &&
                      r.value.d1 == (if |dims| > 1 then dims[1] else 1) &&
                      r.value.d2 == (if |dims| > 2 then dims[2] else 1)
  {
    if |dims| == 0 then Err(NoDimensions)
    else if |dims| > 3 then Err(TooManyDimensions)
    else
      var d := Dims(dims[0], if |dims| > 1 then dims[1] else 1, if |dims| > 2 then dims[2] else 1);
      if d.d0 <= 0 || d.d1 <= 0 || d.d2 <= 0 then Err(NonPositiveDimension)
      else
        assert forall i :: 0 <= i < |dims| ==> dims[i] > 0 by {
          assert |dims| > 1 ==> dims[1] == d.d1;
          assert |dims| > 2 ==> dims[2] == d.d2;
        }
        ProductOfPadded(dims);
        Ok(d)
  }

  lemma ProductOfPadded(dims: seq<int>)
    requires 1 <= |dims| <= 3
    ensures Product(dims) == dims[0] * (if |dims| > 1 then dims[1] else 1) * (if |dims| > 2 then dims[2] else 1)
  {
    if |dims| == 1 {
      assert dims[1..] == [];
    } else if |dims| == 2 {
      assert dims[1..][1..] == [];
    } else {
      assert dims[1..][1..][1..] == [];
    }
  }

  /** `__dim0 * __dim1 * __dim2` as Java evaluates it, left to right in `int`. */
  function LengthAsWritten(d: Dims): JInt
  {
    Wrap(Wrap(d.d0 * d.d1) * d.d2)
  }

  /** The slot count is a Java `int`. */
  predicate Fits(d: Dims)
  {
    Volume(d) <= MaxInt
  }

  /**
   * The dimension check with the overflow test the constructor lacks: a
   * product that is not an `int` is rejected instead of wrapping.
   */
  function CheckDimensions(dims: seq<JInt>): (r: Result<Dims, DimError>)
    ensures r.Ok? <==> ParseDimensions(dims).Ok? && Fits(ParseDimensions(dims).value)
    ensures r.Err? && r.error != SizeOverflow ==> r == ParseDimensions(dims)
    ensures r.Ok? ==> r == ParseDimensions(dims) && LengthAsWritten(r.value) == Product(dims) > 0
  {
    match ParseDimensions(dims)
    case Err(e) => Err(e)
    case Ok(d) =>
      if !Fits(d) then Err(SizeOverflow)
      else
        NoWrapWhenFits(d);
        Ok(d)
  }

  /** Without overflow the Java product is the mathematical one. */
  lemma NoWrapWhenFits(d: Dims)
    requires Positive(d) && Fits(d)
    ensures LengthAsWritten(d) == Volume(d) > 0
  {
    assert d.d0 * d.d1 <= d.d0 * d.d1 * d.d2 by {
      MulMonotone(d.d0 * d.d1, d.d2);
    }
  }

  lemma MulMonotone(a: int, b: int)
    requires a > 0 && b >= 1
    ensures a <= a * b
  {
  }

  /**
   * As written, a 65536 x 65536 container passes every check, but the
   * product wraps to 0: the constructor allocates empty arrays and `size()`
   * returns 0.
   */
  lemma SizeWrapsAsWritten()
    ensures ParseDimensions([65536, 65536]) == Ok(Dims(65536, 65536, 1))
    ensures LengthAsWritten(Dims(65536, 65536, 1)) == 0
    ensures Volume(Dims(65536, 65536, 1)) == 0x1_0000_0000
    ensures CheckDimensions([65536, 65536]) == Err(SizeOverflow)
  {
    assert Wrap(65536 * 65536) == 0 by {
      assert 65536 * 65536 == TwoTo32;
    }
  }

  // ---------------------------------------------------------------------------
  // Row-major flattening

  /** `i0 * __dim1 + i1` in `int` arithmetic. */
  function Flat2(d: Dims, i0: JInt, i1: JInt): JInt
  {
    Wrap(Wrap(i0 * d.d1) + i1)
  }

  /** `(i0 * __dim1 + i1) * __dim2 + i2` in `int` arithmetic. */
  function Flat3(d: Dims, i0: JInt, i1: JInt, i2: JInt): JInt
  {
    Wrap(Wrap(Flat2(d, i0, i1) * d.d2) + i2)
  }

  predicate InRange2(d: Dims, i0: int, i1: int)
  {
    0 <= i0 < d.d0 * d.d2 && 0 <= i1 < d.d1
  }

  predicate InRange3(d: Dims, i0: int, i1: int, i2: int)
  {
    0 <= i0 < d.d0 && 0 <= i1 < d.d1 && 0 <= i2 < d.d2
  }

  /** The last index of a row ends before the next row's start. */
  lemma RowBound(a: int, b: int, n: int)
    requires 0 <= a < n && b > 0
    ensures a * b + b <= n * b
  {
    MulMonotoneLe(a + 1, n, b);
    assert (a + 1) * b == a * b + b;
  }

  /**
   * Indices within the dimensions address slot `i0 * d1 + i1`, which lies
   * within the container.  (For a two-dimensional view of a three-dimensional
   * container, `i0` may range over `d0 * d2` rows.)
   */
  lemma Flat2Exact(d: Dims, i0: JInt, i1: JInt)
    requires Positive(d) && Fits(d) && InRange2(d, i0, i1)
    ensures Flat2(d, i0, i1) == i0 * d.d1 + i1
    ensures 0 <= Flat2(d, i0, i1) < Volume(d)
  {
    var rows := d.d0 * d.d2;
    Reassociate(d.d0, d.d1, d.d2);
    RowBound(i0, d.d1, rows);
    MulMonotoneLe(0, i0, d.d1);
    assert Wrap(i0 * d.d1) == i0 * d.d1;
  }

  lemma Reassociate(a: int, b: int, c: int)
    ensures a * b * c == (a * c) * b
  {
  }

  /** Indices within the dimensions address slot `(i0 * d1 + i1) * d2 + i2`, within the container. */
  lemma Flat3Exact(d: Dims, i0: JInt, i1: JInt, i2: JInt)
    requires Positive(d) && Fits(d) && InRange3(d, i0, i1, i2)
    ensures Flat3(d, i0, i1, i2) == (i0 * d.d1 + i1) * d.d2 + i2
    ensures 0 <= Flat3(d, i0, i1, i2) < Volume(d)
  {
    var p := d.d0 * d.d1;
    assert Volume(d) == p * d.d2;
    RowBound(i0, d.d1, d.d0);
    MulMonotone(p, d.d2);
    MulMonotoneLe(0, i0, d.d1);
    assert Wrap(i0 * d.d1) == i0 * d.d1;
    var r := i0 * d.d1 + i1;
    assert Flat2(d, i0, i1) == r;
    RowBound(r, d.d2, p);
    MulMonotoneLe(0, r, d.d2);
    assert Wrap(r * d.d2) == r * d.d2;
  }

  /** The row and column of a slot: `get(n / d1, n % d1)` is `get(n)`. */
  lemma Flat2RoundTrip(d: Dims, n: int)
    requires Positive(d) && Fits(d) && 0 <= n < Volume(d)
    ensures InRange2(d, n / d.d1, n % d.d1)
    ensures Flat2(d, n / d.d1, n % d.d1) == n
  {
    Reassociate(d.d0, d.d1, d.d2);
    Split(n, d.d1, d.d0 * d.d2);
    Flat2Exact(d, n / d.d1, n % d.d1);
  }

  /** Division by `m` of a number below `q * m`. */
  lemma Split(n: int, m: int, q: int)
    requires 0 <= n < q * m && m > 0
    ensures 0 <= n / m < q && 0 <= n % m < m
    ensures n == (n / m) * m + n % m
  {
    assert n == (n / m) * m + n % m;
    if n / m >= q {
      MulMonotoneLe(q, n / m, m);
    }
  }

  lemma MulMonotoneLe(a: int, b: int, c: int)
    requires a <= b && c > 0
    ensures a * c <= b * c
  {
    assert b * c - a * c == (b - a) * c;
  }

  /** Two index pairs within the dimensions address the same slot only if they are equal. */
  lemma Flat2Injective(d: Dims, i0: JInt, i1: JInt, j0: JInt, j1: JInt)
    requires Positive(d) && Fits(d) && InRange2(d, i0, i1) && InRange2(d, j0, j1)
    requires Flat2(d, i0, i1) == Flat2(d, j0, j1)
    ensures i0 == j0 && i1 == j1
  {
    Flat2Exact(d, i0, i1);
    Flat2Exact(d, j0, j1);
    DivModUnique(i0, i1, j0, j1, d.d1);
  }

  lemma DivModUnique(a: int, b: int, c: int, e: int, m: int)
    requires m > 0 && 0 <= b < m && 0 <= e < m && a * m + b == c * m + e
    ensures a == c && b == e
  {
    assert (a - c) * m == e - b;
    SmallMultiple(a - c, m);
  }

  /** A multiple of `m` strictly between `-m` and `m` is 0. */
  lemma SmallMultiple(x: int, m: int)
    requires m > 0 && -m < x * m < m
    ensures x == 0
  {
    if x >= 1 {
      MulMonotoneLe(1, x, m);
    } else if x <= -1 {
      MulMonotoneLe(x, -1, m);
    }
  }

  /** The slot of a flat index, as three indices. */
  function Unflatten3(d: Dims, n: int): (int, int, int)
    requires Positive(d)
  {
    (n / (d.d1 * d.d2), (n / d.d2) % d.d1, n % d.d2)
  }

  /** Every slot is addressed by exactly the three indices `Unflatten3` names. */
  lemma Flat3RoundTrip(d: Dims, n: int)
    requires Positive(d) && Fits(d) && 0 <= n < Volume(d)
    ensures var (i0, i1, i2) := Unflatten3(d, n);
            InRange3(d, i0, i1, i2) && Flat3(d, i0, i1, i2) == n
  {
    assert Volume(d) == (d.d0 * d.d1) * d.d2;
    Split(n, d.d2, d.d0 * d.d1);
    var r := n / d.d2;
    Split(r, d.d1, d.d0);
    DivOfDiv(n, d.d2, d.d1);
    Flat3Exact(d, r / d.d1, r % d.d1, n % d.d2);
  }

  lemma DivOfDiv(n: int, a: int, b: int)
    requires n >= 0 && a > 0 && b > 0
    ensures n / (b * a) == (n / a) / b
  {
    var q := n / a;
    var q2 := q / b;
    assert n == q * a + n % a;
    assert q == q2 * b + q % b;
    assert n == q2 * (b * a) + ((q % b) * a + n % a);
    assert (q % b) * a + n % a < b * a by {
      MulMonotoneLe(q % b + 1, b, a);
      assert (q % b + 1) * a == (q % b) * a + a;
    }
    DivModUnique(q2, (q % b) * a + n % a, n / (b * a), n % (b * a), b * a);
  }

  /** Three index triples within the dimensions address the same slot only if they are equal. */
  lemma Flat3Injective(d: Dims, i0: JInt, i1: JInt, i2: JInt, j0: JInt, j1: JInt, j2: JInt)
    requires Positive(d) && Fits(d) && InRange3(d, i0, i1, i2) && InRange3(d, j0, j1, j2)
    requires Flat3(d, i0, i1, i2) == Flat3(d, j0, j1, j2)
    ensures i0 == j0 && i1 == j1 && i2 == j2
  {
    Flat3Exact(d, i0, i1, i2);
    Flat3Exact(d, j0, j1, j2);
    DivModUnique(i0 * d.d1 + i1, i2, j0 * d.d1 + j1, j2, d.d2);
    DivModUnique(i0, i1, j0, j1, d.d1);
  }

  /** `get(i0, i1)` does not check `i1 < d1`: one past the end of a row is the next row's start. */
  lemma RowOverrun(d: Dims, i0: JInt)
    requires Positive(d) && Fits(d) && 0 <= i0 && i0 + 1 < d.d0 * d.d2
    ensures Flat2(d, i0, d.d1 as JInt) == Flat2(d, i0 + 1, 0)
  {
    Flat2Exact(d, i0 + 1, 0);
    var r := i0 * d.d1;
    assert (i0 + 1) * d.d1 == r + d.d1;
    MulMonotoneLe(0, i0, d.d1);
    assert Wrap(r) == r;
  }
}
