/**
 * The storage initializer the processor emits for each field of the
 * container (`generateFieldInitializer`).  A field of a non-array type `T`
 * gets `f = new T[__l];`.  A field of an array type gets one allocation with
 * an extra leading dimension of length `__l`: generic arguments are erased
 * (everything from the first `<` to the last `>`), `[__l]` is inserted before
 * the first `[`, and the result is cast back to the declared type plus `[]`.
 */
module Initializer {

  /** `s.indexOf(c)`: the first position of `c`, or -1. */
  function IndexOf(s: string, c: char): (r: int)
    ensures -1 <= r < |s|
    ensures r == -1 <==> c !in s
    ensures 0 <= r ==> s[r] == c && c !in s[..r]
  {
    if s == [] then -1
    else if s[0] == c then 0
    else
      var r := IndexOf(s[1..], c);
      assert s[1..] == s[1..];
      if r == -1 then
        assert forall i :: 0 <= i < |s| ==> s[i] == c ==> i > 0 && s[1..][i - 1] == c;
        -1
      else
        assert s[..r + 1] == [s[0]] + s[1..][..r];
        r + 1
  }

  /** `s.lastIndexOf(c)`: the last position of `c`, or -1. */
  function LastIndexOf(s: string, c: char): (r: int)
    ensures -1 <= r < |s|
    ensures r == -1 <==> c !in s
    ensures 0 <= r ==> s[r] == c && c !in s[r + 1..]
  {
    if s == [] then -1
    else
      var r := LastIndexOf(s[1..], c);
      if 0 <= r then
        assert s[r + 1] == s[1..][r];
        assert s[r + 2..] == s[1..][r + 1..];
        r + 1
      else if s[0] == c then
        assert s[1..] == s[0 + 1..];
        0
      else
        assert forall i :: 0 < i < |s| ==> s[i] == s[1..][i - 1];
        -1
  }

  /** A position holding `c` with no `c` before it is `indexOf`'s answer. */
  lemma IndexOfIs(s: string, c: char, k: int)
    requires 0 <= k < |s| && s[k] == c && c !in s[..k]
    ensures IndexOf(s, c) == k
  {
  }

  /** A position holding `c` with no `c` after it is `lastIndexOf`'s answer. */
  lemma LastIndexOfIs(s: string, c: char, k: int)
    requires 0 <= k < |s| && s[k] == c && c !in s[k + 1..]
    ensures LastIndexOf(s, c) == k
  {
  }

  predicate EndsWith(s: string, suffix: string)
  {
    |suffix| <= |s| && s[|s| - |suffix|..] == suffix
  }

  /** Removes everything between the first `<` and the last `>`, both included. */
  function Erase(t: string): string
  {
    if '<' in t then t[..IndexOf(t, '<')] + t[LastIndexOf(t, '>') + 1..] else t
  }

  /** `s.replaceFirst("\\[", "[__l][")`: `[__l]` goes in front of the first `[`. */
  function InsertLength(s: string): string
  {
    if '[' in s then s[..IndexOf(s, '[')] + "[__l][" + s[IndexOf(s, '[') + 1..] else s
  }

  /** The type expression allocated for an array-typed field. */
  function AllocationType(t: string): string
  {
    InsertLength(Erase(t))
  }

  /** `generateFieldInitializer(type, fieldName)`. */
  function FieldInitializer(t: string, field: string): string
  {
    if EndsWith(t, "[]") then field + " = (" + t + "[])(new " + AllocationType(t) + ");"
    else field + " = new " + t + "[__l];"
  }

  /** How often `c` occurs in `s`. */
  function Count(s: string, c: char): nat
  {
    if s == [] then 0 else (if s[0] == c then 1 else 0) + Count(s[1..], c)
  }

  lemma {:induction false} CountConcat(a: string, b: string, c: char)
    ensures Count(a + b, c) == Count(a, c) + Count(b, c)
  {
    if a == [] {
      assert a + b == b;
    } else {
      assert (a + b)[1..] == a[1..] + b;
      CountConcat(a[1..], b, c);
    }
  }

  lemma {:induction false} CountAbsent(s: string, c: char)
    requires c !in s
    ensures Count(s, c) == 0
  {
    if s != [] {
      assert c !in s[1..] by { assert forall i :: 0 <= i < |s[1..]| ==> s[1..][i] == s[i + 1]; }
      CountAbsent(s[1..], c);
    }
  }

  /**
   * A generic array type `B<A>D` (a base without `<`, one argument block
   * from `<` to `>`, and array dimensions without `>`) erases to `BD`.
   */
  lemma EraseGenericArray(base: string, args: string, dims: string)
    requires '<' !in base && '>' !in dims
    requires |args| >= 2 && args[0] == '<' && args[|args| - 1] == '>'
    ensures Erase(base + args + dims) == base + dims
  {
    var t := base + args + dims;
    assert t[|base|] == '<' && t[..|base|] == base;
    IndexOfIs(t, '<', |base|);
    var j := |base| + |args| - 1;
    assert t[j] == '>' && t[j + 1..] == dims;
    LastIndexOfIs(t, '>', j);
  }

  /**
   * The allocated type is the erased type with `[__l]` placed before its
   * existing dimensions: one more `[` than the erased type, and everything
   * before the new dimension is free of brackets.
   */
  lemma AllocationAddsLeadingDimension(t: string)
    requires EndsWith(t, "[]")
    ensures var e := Erase(t); var k := IndexOf(e, '[');
            '[' in e && 0 <= k && '[' !in e[..k] &&
            AllocationType(t) == e[..k] + "[__l]" + e[k..] &&
            Count(AllocationType(t), '[') == Count(e, '[') + 1
  {
    var e := Erase(t);
    ErasureKeepsDimension(t);
    var k := IndexOf(e, '[');
    var pre, post := e[..k], e[k..];
    assert post == "[" + e[k + 1..];
    assert ("[__l][" + e[k + 1..]) == "[__l]" + post;
    assert AllocationType(t) == pre + "[__l]" + post;
    assert e == pre + post;
    CountConcat(pre, post, '[');
    CountConcat(pre + "[__l]", post, '[');
    CountConcat(pre, "[__l]", '[');
    MarkerCount();
    CountAbsent(pre, '[');
  }

  /**
   * Erasure keeps everything after the last `>`, and the trailing `[]` of an
   * array type lies after it: the erased type still has a `[`.
   */
  lemma ErasureKeepsDimension(t: string)
    requires EndsWith(t, "[]")
    ensures '[' in Erase(t)
  {
    var n := |t|;
    assert t[n - 2..] == "[]";
    assert t[n - 2] == '[' && t[n - 1] == ']';
    if '<' in t {
      var p := LastIndexOf(t, '>');
      assert p < n - 2;
      var tail := t[p + 1..];
      assert tail[n - 2 - (p + 1)] == t[n - 2];
      assert Erase(t) == t[..IndexOf(t, '<')] + tail;
      assert '[' in tail;
    }
  }

  /** The inserted `[__l]` holds one `[`. */
  lemma MarkerCount()
    ensures Count("[__l]", '[') == 1
  {
    assert "[__l]"[1..] == "__l]";
    assert "__l]"[1..] == "_l]";
    assert "_l]"[1..] == "l]";
    assert "l]"[1..] == "]";
    assert "]"[1..] == "";
  }

  /** `[__l]` goes right before the dimensions when the base has no bracket. */
  lemma InsertLengthBeforeDims(base: string, dims: string)
    requires '[' !in base && |dims| >= 1 && dims[0] == '['
    ensures InsertLength(base + dims) == base + "[__l]" + dims
  {
    var e := base + dims;
    assert e[|base|] == '[' && e[..|base|] == base;
    IndexOfIs(e, '[', |base|);
    assert e[|base| + 1..] == dims[1..];
    assert dims == "[" + dims[1..];
  }

  /** A type without `<` is not changed by erasure. */
  lemma EraseNoGenerics(base: string, dims: string)
    requires '<' !in base && '<' !in dims
    ensures Erase(base + dims) == base + dims
  {
  }

  /**
   * For a field type `B<A>[]...[]` or `B[]...[]` whose base has no brackets,
   * the allocation is `B[__l][]...[]`: the generic block disappears and the
   * new leading dimension precedes the declared ones (for instance
   * `List<int[]>[][][]` becomes `List[__l][][][]`).
   */
  lemma AllocationOfArrayField(base: string, args: string, dims: string)
    requires '<' !in base && '[' !in base && '<' !in dims && '>' !in dims
    requires args == [] || (|args| >= 2 && args[0] == '<' && args[|args| - 1] == '>')
    requires |dims| >= 2 && dims[0] == '['
    ensures AllocationType(base + args + dims) == base + "[__l]" + dims
  {
    if args == [] {
      assert base + args + dims == base + dims;
      EraseNoGenerics(base, dims);
    } else {
      EraseGenericArray(base, args, dims);
    }
    InsertLengthBeforeDims(base, dims);
  }

  /** The whole initializer of such an array field: one cast allocation with the extra leading dimension. */
  lemma ArrayFieldInitializer(base: string, args: string, dims: string, field: string)
    requires '<' !in base && '[' !in base && '<' !in dims && '>' !in dims
    requires args == [] || (|args| >= 2 && args[0] == '<' && args[|args| - 1] == '>')
    requires |dims| >= 2 && dims[0] == '[' && EndsWith(dims, "[]")
    ensures FieldInitializer(base + args + dims, field) ==
            field + " = (" + (base + args + dims) + "[])(new " + (base + "[__l]" + dims) + ");"
  {
    var t := base + args + dims;
    AllocationOfArrayField(base, args, dims);
    assert EndsWith(t, "[]") by {
      assert t[|t| - 2..] == dims[|dims| - 2..];
    }
    var alloc := AllocationType(t);
    assert alloc == base + "[__l]" + dims;
    assert FieldInitializer(t, field) == field + " = (" + t + "[])(new " + alloc + ");";
  }

  /** A field of any type other than an array type is one array of length `__l`. */
  lemma PlainFieldInitializer(t: string, field: string)
    requires !EndsWith(t, "[]")
    ensures FieldInitializer(t, field) == field + " = new " + t + "[__l];"
  {
  }

  /** The `Age` field of `SimpleRecord`. */
  lemma PlainFieldExample()
    ensures FieldInitializer("int", "Age") == "Age = new int[__l];"
  {
  }
}
