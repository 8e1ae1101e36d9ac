/**
 * The `equals` and `hashCode` methods the processor generates for every
 * record implementation (`generateEquals`, `generateHashCode`).  Both walk
 * the getter fields in declaration order.  A record is observed through its
 * getters only: `Rec` maps each getter field to the value its getter returns.
 *
 *   equals:   the same instance is equal; an object that is not a record of
 *             the interface type (`null` included) is not; otherwise every
 *             getter field must compare equal (`Double.compare`,
 *             `Float.compare`, `!=` on other primitives, `Objects.equals`
 *             on references).
 *   hashCode: `result = h0; result = result * 31 + h1; ...` in `int`
 *             arithmetic, with the per-type field hashes of the JDK idiom.
 */
module EqualsHash {
  import opened Wrappers
  import opened OrderedMap
  import opened JavaValues
  import opened Schema

  /** What the getters of one record return, keyed by field name. */
  type Rec = map<string, Value>

  /** The argument of `equals(Object o)`, as far as the generated code can tell. */
  datatype Other =
    | SameInstance          // `this == o`
    | NotARecord            // `!(o instanceof RecordType)`, `null` included
    | OtherRecord(values: Rec)

  /** Every getter in `gs` has a value in `a`. */
  predicate Covers(gs: OMap, a: Rec)
  {
    forall i :: 0 <= i < |gs| ==> gs[i].0 in a
  }

  /**
   * One field's comparison.  `Double.compare(x, y) == 0` and
   * `Float.compare(x, y) == 0` hold exactly when the canonical bit patterns
   * agree; other primitives compare with `==`, references with
   * `Objects.equals`.  A value whose shape does not match the declared type
   * (which Java's typing rules out) falls back to identity.
   */
  function FieldEquals(ops: RefOps, t: string, x: Value, y: Value): bool
  {
    if t == "double" && x.DoubleV? && y.DoubleV? then
      DoubleToLongBits(x.d) == DoubleToLongBits(y.d)
    else if t == "float" && x.FloatV? && y.FloatV? then
      FloatToIntBits(x.f) == FloatToIntBits(y.f)
    else if !IsPrimitive(t) && x.RefV? && y.RefV? then
      ObjectsEquals(ops, x.r, y.r)
    else
      x == y
  }

  /** One field's hash word. */
  function FieldHash(ops: RefOps, t: string, x: Value): JInt
  {
    if t == "double" && x.DoubleV? then LongFold(DoubleToLongBits(x.d))
    else if t == "float" && x.FloatV? then (if FloatIsZero(x.f) then 0 else ToInt(FloatToIntBits(x.f)))
    else if t == "long" && x.LongV? then LongFold(x.l)
    else if t == "boolean" && x.BoolV? then (if x.b then 1 else 0)
    else if IsPrimitive(t) && x.IntV? then x.i
    else if !IsPrimitive(t) && x.RefV? then ObjectsHashCode(ops, x.r)
    else 0
  }

  /** The comparisons in getter order, stopping at the first that fails. */
  function FieldsEqual(ops: RefOps, s: Schema, gs: OMap, a: Rec, b: Rec): bool
    requires Covers(gs, a) && Covers(gs, b)
  {
    if gs == [] then true
    else
      var f := gs[0].0;
      if !FieldEquals(ops, TypeOf(s, f), a[f], b[f]) then false
      else FieldsEqual(ops, s, gs[1..], a, b)
  }

  /** The generated `equals(Object o)` of a record whose getters return `self`. */
  function Equals(ops: RefOps, s: Schema, self: Rec, o: Other): bool
    requires Covers(s.getters, self)
    requires o.OtherRecord? ==> Covers(s.getters, o.values)
  {
    match o
    case SameInstance => true
    case NotARecord => false
    case OtherRecord(v) => FieldsEqual(ops, s, s.getters, self, v)
  }

  /** The hash words of the getter fields, in getter order. */
  function FieldHashes(ops: RefOps, s: Schema, gs: OMap, a: Rec): (hs: seq<JInt>)
    requires Covers(gs, a)
    ensures |hs| == |gs|
    ensures forall i :: 0 <= i < |gs| ==> hs[i] == FieldHash(ops, TypeOf(s, gs[i].0), a[gs[i].0])
  {
    if gs == [] then []
    else [FieldHash(ops, TypeOf(s, gs[0].0), a[gs[0].0])] + FieldHashes(ops, s, gs[1..], a)
  }

  /** `result = h0; result = result * 31 + h1; ...`, each step wrapping to an `int`. */
  function Combine(hs: seq<JInt>): JInt
    requires |hs| > 0
  {
    if |hs| == 1 then hs[0]
    else Wrap(Combine(hs[..|hs| - 1]) * 31 + hs[|hs| - 1])
  }

  /**
   * The generated `hashCode()`.  With no getter at all the generated method
   * returns a local `result` that was never assigned, which `javac` rejects:
   * there is no hash code then.
   */
  function HashCode(ops: RefOps, s: Schema, a: Rec): Option<JInt>
    requires Covers(s.getters, a)
  {
    if s.getters == [] then None else Some(Combine(FieldHashes(ops, s, s.getters, a)))
  }

  /**
   * The straight-line code `generateHashCode` emits, run statement by
   * statement over the hash words `hs` of the getters: the generator's
   * `first` flag decides whether a statement multiplies the running
   * `result` or starts it.
   */
  method RunHashStatements(hs: seq<JInt>) returns (result: JInt)
    requires |hs| > 0
    ensures result == Combine(hs)
  {
    var first := true;
    result := 0;
    var i := 0;
    while i < |hs|
      invariant 0 <= i <= |hs|
      invariant first <==> i == 0
      invariant i > 0 ==> result == Combine(hs[..i])
    {
      if !first {
        CombineStep(hs, i);
        result := Wrap(result * 31 + hs[i]);
      } else {
        first := false;
        result := hs[i];
      }
      i := i + 1;
    }
    assert hs[..i] == hs;
  }

  /** The generated `hashCode()` of a record whose getters return `a`. */
  method RunHashCode(ops: RefOps, s: Schema, a: Rec) returns (result: JInt)
    requires s.getters != [] && Covers(s.getters, a)
    ensures HashCode(ops, s, a) == Some(result)
  {
    var hs := FieldHashes(ops, s, s.getters, a);
    result := RunHashStatements(hs);
  }

  lemma CombineStep(hs: seq<JInt>, i: int)
    requires 0 < i < |hs|
    ensures Combine(hs[..i + 1]) == Wrap(Combine(hs[..i]) * 31 + hs[i])
  {
    assert hs[..i + 1][..i] == hs[..i];
  }

  // ---------------------------------------------------------------------------
  // Properties of equals

  /** Short-circuiting in order decides the same as "every field compares equal". */
  lemma {:induction false} FieldsEqualIff(ops: RefOps, s: Schema, gs: OMap, a: Rec, b: Rec)
    requires Covers(gs, a) && Covers(gs, b)
    ensures FieldsEqual(ops, s, gs, a, b) <==>
            forall i :: 0 <= i < |gs| ==> FieldEquals(ops, TypeOf(s, gs[i].0), a[gs[i].0], b[gs[i].0])
    decreases gs
  {
    if gs != [] {
      assert Covers(gs[1..], a) && Covers(gs[1..], b) by {
        assert forall i :: 0 <= i < |gs| - 1 ==> gs[1..][i] == gs[i + 1];
      }
      FieldsEqualIff(ops, s, gs[1..], a, b);
      assert forall i :: 0 <= i < |gs| - 1 ==> gs[1..][i] == gs[i + 1];
      if FieldEquals(ops, TypeOf(s, gs[0].0), a[gs[0].0], b[gs[0].0]) {
        forall i | 0 <= i < |gs|
          ensures FieldsEqual(ops, s, gs[1..], a, b) ==>
                  FieldEquals(ops, TypeOf(s, gs[i].0), a[gs[i].0], b[gs[i].0])
        {
          if i > 0 {
            assert gs[i] == gs[1..][i - 1];
          }
        }
      }
    }
  }

  /** Every field compares equal to itself, NaN included. */
  lemma FieldEqualsReflexive(ops: RefOps, t: string, x: Value)
    ensures FieldEquals(ops, t, x, x)
  {
  }

  /** A record equals any record whose getters return the same values, even with NaN fields. */
  lemma EqualsReflexive(ops: RefOps, s: Schema, a: Rec)
    requires Covers(s.getters, a)
    ensures Equals(ops, s, a, OtherRecord(a))
  {
    FieldsEqualIff(ops, s, s.getters, a, a);
    forall i | 0 <= i < |s.getters|
      ensures FieldEquals(ops, TypeOf(s, s.getters[i].0), a[s.getters[i].0], a[s.getters[i].0])
    {
      FieldEqualsReflexive(ops, TypeOf(s, s.getters[i].0), a[s.getters[i].0]);
    }
  }

  /** The objects' own `equals` is symmetric. */
  ghost predicate Symmetric(ops: RefOps)
  {
    forall x, y :: ops.equals(x, y) == ops.equals(y, x)
  }

  /** `equals` between two records is symmetric when the field objects' own `equals` is. */
  lemma EqualsSymmetric(ops: RefOps, s: Schema, a: Rec, b: Rec)
    requires Symmetric(ops)
    requires Covers(s.getters, a) && Covers(s.getters, b)
    ensures Equals(ops, s, a, OtherRecord(b)) == Equals(ops, s, b, OtherRecord(a))
  {
    FieldsEqualIff(ops, s, s.getters, a, b);
    FieldsEqualIff(ops, s, s.getters, b, a);
    forall i | 0 <= i < |s.getters|
      ensures FieldEquals(ops, TypeOf(s, s.getters[i].0), a[s.getters[i].0], b[s.getters[i].0]) ==
              FieldEquals(ops, TypeOf(s, s.getters[i].0), b[s.getters[i].0], a[s.getters[i].0])
    {
      var x, y := a[s.getters[i].0], b[s.getters[i].0];
      if x.RefV? && y.RefV? && x.r.Obj? && y.r.Obj? {
        assert ops.equals(x.r.id, y.r.id) == ops.equals(y.r.id, x.r.id);
      }
    }
  }

  /** `+0.0f` and `-0.0f` hash alike, yet `Float.compare` tells them apart. */
  lemma SignedZerosFloat(ops: RefOps)
    ensures FieldHash(ops, "float", FloatV(0)) == FieldHash(ops, "float", FloatV(0x8000_0000)) == 0
    ensures !FieldEquals(ops, "float", FloatV(0), FloatV(0x8000_0000))
  {
    assert !IsNaN32(0x8000_0000);
  }

  /** Two different NaN patterns of a `double` field compare equal. */
  lemma NaNsCompareEqual(ops: RefOps)
    ensures FieldEquals(ops, "double", DoubleV(0x7FF0_0000_0000_0001), DoubleV(0xFFF8_0000_0000_0000))
  {
    assert IsNaN64(0x7FF0_0000_0000_0001) && IsNaN64(0xFFF8_0000_0000_0000);
  }

  // ---------------------------------------------------------------------------
  // equals and hashCode agree

  /** Fields that compare equal hash alike, given the objects' own contract. */
  lemma FieldHashConsistent(ops: RefOps, t: string, x: Value, y: Value)
    requires Lawful(ops)
    requires FieldEquals(ops, t, x, y)
    ensures FieldHash(ops, t, x) == FieldHash(ops, t, y)
  {
    if t == "float" && x.FloatV? && y.FloatV? {
      if IsNaN32(x.f) {
        assert IsNaN32(y.f);
        assert !FloatIsZero(x.f) && !FloatIsZero(y.f);
      }
    } else if !IsPrimitive(t) && x.RefV? && y.RefV? {
      ObjectsHashConsistent(ops, x.r, y.r);
    }
  }

  /** The `Object` contract for the generated pair: equal records have equal hash codes. */
  lemma EqualsImpliesEqualHash(ops: RefOps, s: Schema, a: Rec, b: Rec)
    requires Lawful(ops)
    requires Covers(s.getters, a) && Covers(s.getters, b)
    requires Equals(ops, s, a, OtherRecord(b))
    ensures HashCode(ops, s, a) == HashCode(ops, s, b)
  {
    FieldsEqualIff(ops, s, s.getters, a, b);
    var ha, hb := FieldHashes(ops, s, s.getters, a), FieldHashes(ops, s, s.getters, b);
    forall i | 0 <= i < |s.getters|
      ensures ha[i] == hb[i]
    {
      FieldHashConsistent(ops, TypeOf(s, s.getters[i].0), a[s.getters[i].0], b[s.getters[i].0]);
    }
    assert ha == hb;
  }

  /** Only the getter fields take part: records that agree on them are indistinguishable. */
  lemma OnlyGettersMatter(ops: RefOps, s: Schema, a: Rec, b: Rec, c: Rec)
    requires Covers(s.getters, a) && Covers(s.getters, b) && Covers(s.getters, c)
    requires forall i :: 0 <= i < |s.getters| ==> a[s.getters[i].0] == b[s.getters[i].0]
    ensures Equals(ops, s, a, OtherRecord(c)) == Equals(ops, s, b, OtherRecord(c))
    ensures HashCode(ops, s, a) == HashCode(ops, s, b)
  {
    FieldsEqualIff(ops, s, s.getters, a, c);
    FieldsEqualIff(ops, s, s.getters, b, c);
    assert FieldHashes(ops, s, s.getters, a) == FieldHashes(ops, s, s.getters, b);
  }

  // ---------------------------------------------------------------------------
  // The hash as a polynomial

  function Pow31(n: nat): (r: int)
    ensures r > 0
  {
    if n == 0 then 1 else 31 * Pow31(n - 1)
  }

  /** `h0 * 31^(n-1) + h1 * 31^(n-2) + ... + h(n-1)` over the integers. */
  function Polynomial(hs: seq<JInt>): int
  {
    if hs == [] then 0 else hs[0] * Pow31(|hs| - 1) + Polynomial(hs[1..])
  }

  lemma WrapCongruent(x: int, y: int)
    requires (x - y) % TwoTo32 == 0
    ensures Wrap(x) == Wrap(y)
  {
    var k := (x - y) / TwoTo32;
    assert x - MinInt == (y - MinInt) + k * TwoTo32;
    ModShift(y - MinInt, k);
  }

  lemma ModShift(a: int, k: int)
    ensures (a + k * TwoTo32) % TwoTo32 == a % TwoTo32
  {
    var q, r := a / TwoTo32, a % TwoTo32;
    assert a + k * TwoTo32 == (q + k) * TwoTo32 + r;
  }

  lemma PolynomialSnoc(hs: seq<JInt>, h: JInt)
    ensures Polynomial(hs + [h]) == Polynomial(hs) * 31 + h
    decreases |hs|
  {
    if hs == [] {
      assert [h][1..] == [];
    } else {
      assert (hs + [h])[1..] == hs[1..] + [h];
      PolynomialSnoc(hs[1..], h);
      assert Pow31(|hs|) == 31 * Pow31(|hs| - 1);
      calc {
        Polynomial(hs + [h]);
        hs[0] * Pow31(|hs|) + Polynomial(hs[1..] + [h]);
        hs[0] * (31 * Pow31(|hs| - 1)) + Polynomial(hs[1..]) * 31 + h;
        { assert hs[0] * (31 * Pow31(|hs| - 1)) == (hs[0] * Pow31(|hs| - 1)) * 31; }
        (hs[0] * Pow31(|hs| - 1) + Polynomial(hs[1..])) * 31 + h;
      }
    }
  }

  /** The chain of wrapped steps is the polynomial in 31, reduced once to an `int`. */
  lemma {:induction false} CombineIsPolynomial(hs: seq<JInt>)
    requires |hs| > 0
    ensures Combine(hs) == Wrap(Polynomial(hs))
    decreases |hs|
  {
    if |hs| == 1 {
      assert hs[1..] == [];
    } else {
      var init, last := hs[..|hs| - 1], hs[|hs| - 1];
      assert hs == init + [last];
      CombineIsPolynomial(init);
      PolynomialSnoc(init, last);
      var c := Combine(init);
      var p := Polynomial(init);
      assert (p - c) % TwoTo32 == 0;
      var k := (p - c) / TwoTo32;
      assert p * 31 + last == (c * 31 + last) + (31 * k) * TwoTo32;
      ModShift(c * 31 + last, 31 * k);
      assert (c * 31 + last) - (p * 31 + last) == -(31 * k) * TwoTo32;
      ModShift(0, -(31 * k));
      WrapCongruent(c * 31 + last, p * 31 + last);
    }
  }

  // ---------------------------------------------------------------------------
  // Changing one hash word changes the hash

  /** Replacing word `k` moves the polynomial by the change times `31^(n-1-k)`. */
  lemma {:induction false} PolynomialUpdate(hs: seq<JInt>, k: int, x: JInt)
    requires 0 <= k < |hs|
    ensures Polynomial(hs[k := x]) - Polynomial(hs) == (x - hs[k]) * Pow31(|hs| - 1 - k)
    decreases |hs|
  {
    var hs' := hs[k := x];
    if k > 0 {
      assert hs'[1..] == hs[1..][k - 1 := x];
      PolynomialUpdate(hs[1..], k - 1, x);
    } else {
      assert hs'[1..] == hs[1..];
      assert x * Pow31(|hs| - 1) - hs[0] * Pow31(|hs| - 1) == (x - hs[0]) * Pow31(|hs| - 1);
    }
  }

  /** Equal wraps come from integers a multiple of 2^32 apart. */
  lemma WrapEqualDiff(x: int, y: int)
    requires Wrap(x) == Wrap(y)
    ensures (x - y) % TwoTo32 == 0
  {
    var a, b := (x - Wrap(x)) / TwoTo32, (y - Wrap(y)) / TwoTo32;
    assert x - y == (a - b) * TwoTo32;
    ModShift(0, a - b);
  }

  /** 31 is invertible modulo 2^32 (31 * 3186588639 == 23 * 2^32 + 1), so it cancels. */
  lemma Cancel31(d: int)
    requires (d * 31) % TwoTo32 == 0
    ensures d % TwoTo32 == 0
  {
    var k := (d * 31) / TwoTo32;
    assert d * 31 == k * TwoTo32;
    assert 31 * 3186588639 == 23 * TwoTo32 + 1;
    assert d * (31 * 3186588639) == d * (23 * TwoTo32) + d;
    assert (d * 31) * 3186588639 == (k * 3186588639) * TwoTo32;
    assert d == (k * 3186588639 - 23 * d) * TwoTo32;
    ModShift(0, k * 3186588639 - 23 * d);
  }

  /** So do its powers. */
  lemma {:induction false} CancelPow31(d: int, m: nat)
    requires (d * Pow31(m)) % TwoTo32 == 0
    ensures d % TwoTo32 == 0
    decreases m
  {
    if m > 0 {
      assert d * Pow31(m) == (d * 31) * Pow31(m - 1);
      CancelPow31(d * 31, m - 1);
      Cancel31(d);
    }
  }

  /** Two distinct `int`s are never a multiple of 2^32 apart. */
  lemma DistinctInts(x: JInt, y: JInt)
    requires x != y
    ensures (x - y) % TwoTo32 != 0
  {
    var d := x - y;
    if d > 0 {
      assert d % TwoTo32 == d;
    } else {
      assert d + TwoTo32 > 0;
      ModShift(d, 1);
      assert (d + TwoTo32) % TwoTo32 == d + TwoTo32;
    }
  }

  /**
   * Records whose hash words differ in exactly one getter have different
   * hash codes, whichever getter it is: `result * 31 + h` loses nothing in
   * 32 bits, since 31 is odd.
   */
  lemma OneWordChangesHash(hs: seq<JInt>, k: int, x: JInt)
    requires 0 <= k < |hs| && x != hs[k]
    ensures Combine(hs[k := x]) != Combine(hs)
  {
    var hs' := hs[k := x];
    CombineIsPolynomial(hs);
    CombineIsPolynomial(hs');
    PolynomialUpdate(hs, k, x);
    if Combine(hs') == Combine(hs) {
      WrapEqualDiff(Polynomial(hs'), Polynomial(hs));
      CancelPow31(x - hs[k], |hs| - 1 - k);
      DistinctInts(x, hs[k]);
      assert false;
    }
  }

  /**
   * Changing one getter field to a value with another hash word changes the
   * record's `hashCode()`.
   */
  lemma FieldChangesHash(ops: RefOps, s: Schema, a: Rec, k: int, v: Value)
    requires DistinctKeys(s.getters) && Covers(s.getters, a) && 0 <= k < |s.getters|
    requires FieldHash(ops, TypeOf(s, s.getters[k].0), v) != FieldHash(ops, TypeOf(s, s.getters[k].0), a[s.getters[k].0])
    ensures HashCode(ops, s, a[s.getters[k].0 := v]) != HashCode(ops, s, a)
  {
    var f := s.getters[k].0;
    var b := a[f := v];
    var ha, hb := FieldHashes(ops, s, s.getters, a), FieldHashes(ops, s, s.getters, b);
    forall i | 0 <= i < |s.getters|
      ensures hb[i] == ha[k := FieldHash(ops, TypeOf(s, f), v)][i]
    {
      if i != k {
        assert s.getters[i].0 != f;
      }
    }
    assert hb == ha[k := FieldHash(ops, TypeOf(s, f), v)];
    OneWordChangesHash(ha, k, FieldHash(ops, TypeOf(s, f), v));
  }

  /** Changing one getter field to a value that compares unequal makes the records unequal. */
  lemma FieldChangesEquals(ops: RefOps, s: Schema, a: Rec, k: int, v: Value)
    requires DistinctKeys(s.getters) && Covers(s.getters, a) && 0 <= k < |s.getters|
    requires !FieldEquals(ops, TypeOf(s, s.getters[k].0), a[s.getters[k].0], v)
    ensures !Equals(ops, s, a, OtherRecord(a[s.getters[k].0 := v]))
  {
    FieldsEqualIff(ops, s, s.getters, a, a[s.getters[k].0 := v]);
  }
}
