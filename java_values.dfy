/**
 * The Java values a record field can hold, and the bit-level helpers the
 * generated `equals` and `hashCode` call: 32-bit `int` wrap-around, the
 * `(int)` narrowing of a `long`, and `Double.doubleToLongBits` /
 * `Float.floatToIntBits`.  Floating-point numbers are held as their raw
 * IEEE-754 bit patterns; no floating-point arithmetic is modelled.
 */
module JavaValues {

  const TwoTo32: int := 0x1_0000_0000
  const MinInt: int := -0x8000_0000
  const MaxInt: int := 0x7FFF_FFFF

  /** A Java `int`. */
  type JInt = x: int | MinInt <= x <= MaxInt

  /** The Java `int` an arithmetic result wraps around to. */
  function Wrap(x: int): (r: JInt)
    ensures (x - r) % TwoTo32 == 0
    ensures MinInt <= x <= MaxInt ==> r == x
  {
    var y := x - MinInt;
    assert y == (y / TwoTo32) * TwoTo32 + y % TwoTo32;
    assert x - ((y % TwoTo32) + MinInt) == (y / TwoTo32) * TwoTo32;
    (y % TwoTo32) + MinInt
  }

  /** Reading 32 bits as a two's-complement Java `int`. */
  function ToInt(u: bv32): (r: JInt)
    ensures (r - u as int) % TwoTo32 == 0
  {
    if u < 0x8000_0000 then u as int else u as int - TwoTo32
  }

  /** The `(int)` cast of a `long`: its low 32 bits. */
  function LowInt(b: bv64): JInt
  {
    ToInt((b & 0xFFFF_FFFF) as bv32)
  }

  /** `(int) (v ^ (v >>> 32))`, the fold of a 64-bit value into a hash word. */
  function LongFold(b: bv64): JInt
  {
    LowInt(b ^ (b >> 32))
  }

  /** A double's bit pattern is a NaN: all exponent bits set, a non-zero fraction. */
  predicate IsNaN64(b: bv64)
  {
    (b >> 52) & 0x7FF == 0x7FF && b & 0xF_FFFF_FFFF_FFFF != 0
  }

  /** A float's bit pattern is a NaN. */
  predicate IsNaN32(b: bv32)
  {
    (b >> 23) & 0xFF == 0xFF && b & 0x7F_FFFF != 0
  }

  const CanonicalNaN64: bv64 := 0x7FF8_0000_0000_0000
  const CanonicalNaN32: bv32 := 0x7FC0_0000

  /** `Double.doubleToLongBits`: the raw bits, with every NaN collapsed to one pattern. */
  function DoubleToLongBits(b: bv64): (r: bv64)
    ensures IsNaN64(b) <==> IsNaN64(r)
    ensures !IsNaN64(b) ==> r == b
  {
    if IsNaN64(b) then CanonicalNaN64 else b
  }

  /** `Float.floatToIntBits`: the raw bits, with every NaN collapsed to one pattern. */
  function FloatToIntBits(b: bv32): (r: bv32)
    ensures IsNaN32(b) <==> IsNaN32(r)
    ensures !IsNaN32(b) ==> r == b
  {
    if IsNaN32(b) then CanonicalNaN32 else b
  }

  /** `f == +0.0f`, which is true of both signed zeros and of nothing else. */
  predicate FloatIsZero(b: bv32)
  {
    b & 0x7FFF_FFFF == 0
  }

  /** An object reference: `null`, or an object known by an opaque identity. */
  datatype Ref = Null | Obj(id: nat)

  /** A field value. */
  datatype Value =
    | IntV(i: JInt)      // byte, short, char or int, widened to int
    | LongV(l: bv64)
    | BoolV(b: bool)
    | FloatV(f: bv32)    // raw IEEE-754 single-precision bits
    | DoubleV(d: bv64)   // raw IEEE-754 double-precision bits
    | RefV(r: Ref)       // any reference type: boxed values, strings, arrays, objects

  /**
   * The objects' own `equals` and `hashCode`, which the generated code reaches
   * through `Objects.equals` and `Objects.hashCode`; they are parameters.
   */
  datatype RefOps = RefOps(equals: (nat, nat) -> bool, hashCode: nat -> JInt)

  /** The `Object` contract: objects that are equal have equal hash codes. */
  ghost predicate Lawful(ops: RefOps)
  {
    forall x, y :: ops.equals(x, y) ==> ops.hashCode(x) == ops.hashCode(y)
  }

  /** `Objects.equals(a, b)`: identical references are equal, `null` equals only `null`. */
  function ObjectsEquals(ops: RefOps, a: Ref, b: Ref): bool
  {
    if a == b then true
    else if a.Null? || b.Null? then false
    else ops.equals(a.id, b.id)
  }

  /** `Objects.hashCode(o)`: 0 for `null`, otherwise the object's own hash. */
  function ObjectsHashCode(ops: RefOps, r: Ref): JInt
  {
    if r.Null? then 0 else ops.hashCode(r.id)
  }

  /** The processor's `primitiveTypes` set. */
  predicate IsPrimitive(t: string)
  {
    t in {"boolean", "byte", "char", "double", "float", "int", "long", "short"}
  }

  /** A value of declared type `t` has the shape the type dictates. */
  predicate HasType(t: string, v: Value)
  {
    if t == "double" then v.DoubleV?
    else if t == "float" then v.FloatV?
    else if t == "long" then v.LongV?
    else if t == "boolean" then v.BoolV?
    else if IsPrimitive(t) then v.IntV?
    else v.RefV?
  }

  /** The value a freshly allocated Java array of element type `t` holds in every slot. */
  function Default(t: string): (v: Value)
    ensures HasType(t, v)
    ensures v.IntV? ==> v.i == 0
    ensures v.LongV? ==> v.l == 0
    ensures v.BoolV? ==> !v.b
    ensures v.FloatV? ==> v.f == 0
    ensures v.DoubleV? ==> v.d == 0
    ensures v.RefV? ==> v.r.Null?
  {
    if t == "double" then DoubleV(0)
    else if t == "float" then FloatV(0)
    else if t == "long" then LongV(0)
    else if t == "boolean" then BoolV(false)
    else if IsPrimitive(t) then IntV(0)
    else RefV(Null)
  }

  /** `Objects.equals` agrees with `Objects.hashCode` whenever the objects' own methods do. */
  lemma ObjectsHashConsistent(ops: RefOps, a: Ref, b: Ref)
    requires Lawful(ops)
    requires ObjectsEquals(ops, a, b)
    ensures ObjectsHashCode(ops, a) == ObjectsHashCode(ops, b)
  {
    if a != b {
      assert ops.equals(a.id, b.id);
    }
  }

  /** `doubleToLongBits` identifies exactly the bit patterns that differ only as NaNs. */
  lemma DoubleBitsEqual(a: bv64, b: bv64)
    ensures DoubleToLongBits(a) == DoubleToLongBits(b) <==> a == b || (IsNaN64(a) && IsNaN64(b))
  {
  }

  /** A float that equals +0.0f is never a NaN, so `floatToIntBits` keeps it. */
  lemma ZeroIsNotNaN(b: bv32)
    requires FloatIsZero(b)
    ensures !IsNaN32(b) && FloatToIntBits(b) == b
  {
  }
}
