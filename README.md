# record-array in Dafny

`record-array` is a Java annotation processor. For every interface marked
`@Record` it generates a struct-of-arrays container implementing
`RecordArray<T>`. The container keeps one backing array per field of the
record. `get` hands out a cursor (an index plus a reference to the
container). `set` copies a record's field values in through its getters.
An optional `copy()` returns a detached snapshot that owns its field values.

This project models that behaviour and proves properties of it.

- **Schema extraction** (module `Schema`). This is the processor's loop over
  the interface's methods.
  - Default methods are skipped.
  - `get<X>`/`is<X>` define a field `X` with its getter.
  - `set<X>` defines a writable field `X`.
  - `copy` enables the detached snapshot.
  - Anything else is ignored.
  - The checks are the empty field name, conflicting field types, a setter
    shape other than one parameter and a `void` return, and the `copy`
    shape.
  - The two insertion-ordered maps (`LinkedHashMap`) are modelled in module
    `OrderedMap` as sequences of pairs. A re-inserted key keeps its first
    position.
  - The loop is written both as an imperative method (`ExtractSchema`) and
    as a fold (`Fold`). The method is proved equal to the fold.
- **Generated `equals`/`hashCode`** (module `EqualsHash`). This is the
  behaviour the emitted text encodes, not the text.
  - Fields are taken in getter order and dispatch on the declared type.
  - Floats and doubles are compared via their canonical bit patterns.
    Other primitives use `==`, references use null-safe `Objects.equals`.
  - Hash words are combined as `result * 31 + h` in wrapping 32-bit
    arithmetic. A long folds as `v ^ (v >>> 32)`. Booleans hash to 1/0.
    Both float zeros hash to 0.
  - Module `JavaValues` holds Java's `int` wrap-around, the value shapes and
    the reference operations.
- **Field initializers** (module `Initializer`). This is the string rewrite
  of `generateFieldInitializer`:
  - everything from the first `<` to the last `>` is erased;
  - `[__l]` is inserted before the first `[`.
- **Dimensions** (module `Flatten`). This covers the constructor's
  dimension rules, `size()` as the product of the dimensions (missing ones
  count as 1), and the row-major flattening of the 2-D and 3-D
  `get`/`set` overloads in Java `int` arithmetic.
- **The generated container** (module `Container`).
  - `RecordArrayImpl` holds one `array<Value>` per field.
  - `Cursor` is what `get` returns.
  - `Detached` is what `copy()` returns.
  - `Record` is any object implementing the interface: a cursor, a
    snapshot, or a foreign implementation known only by what its getters
    return.
  - `Set` is proved to copy exactly the getter fields into one slot and to
    leave every other slot alone. This holds even when the source record is
    a cursor into the same container.
- **Client scenarios** (module `Scenarios`). The `SimpleRecord` interface is
  extracted symbolically. Client methods mirror the repository's tests:
  - repeated `get` gives distinct but equal cursors;
  - swapping through a live cursor duplicates a slot, while swapping
    through `copy()` is a true swap;
  - a copy equals its source, and mutating the copy makes them unequal
    with different hash codes;
  - `set` from a foreign implementation keeps only its getter values;
  - the 1-D fill loop, and the row-major 3-D fill loop.

Where the Java doc comment and the code disagree, the model follows the
code:
- `RecordArray.create` promises an `IllegalArgumentException` when the
  parameters fail validation;
- the code never lets that exception reach the caller. The constructor
  runs reflectively inside the generated factory, which rethrows the
  failure as an `IllegalStateException`. `RecordArrayFactory.create`
  reaches that factory through `Method.invoke`, so it sees an
  `InvocationTargetException`. It rethrows that as a `RuntimeException`
  ("Cannot create RecordArray<…>; Is annotation processing enabled?"),
  and this is what `RecordArray.create`'s caller sees. The
  `IllegalArgumentException` survives only as the innermost cause of
  that exception chain;
- `Container.Create` therefore reports `FailedToCreate` for bad
  dimensions, and `UnsupportedRecordClass` only for a class without a
  factory. The second is the one case where `RecordArray.create` itself
  throws `IllegalArgumentException`.

Inputs that the processor gets from the compiler or the JVM are
parameters:
- the annotated declaration (`Schema.Declaration`);
- the behaviour of `equals`/`hashCode` on reference values
  (`JavaValues.RefOps`);
- the factory table that `create` consults (the `factories` map of
  `Container.Create`).

## Model

Source paths are relative to the repository root. `RecordAnnotationProcessor.java` and `RecordArray.java` live in
`record-array/src/main/java/com/aivean/recarr/`.

| member | source | states |
|---|---|---|
| OrderedMap.Keys | record-array/src/main/java/com/aivean/recarr/RecordAnnotationProcessor.java:236-239 | the key sequence has one entry per map entry, in insertion order |
| OrderedMap.Get | record-array/src/main/java/com/aivean/recarr/RecordAnnotationProcessor.java:260 | the lookup is absent exactly when the key is not in the map, and otherwise returns the value of an entry with that key |
| OrderedMap.Put | record-array/src/main/java/com/aivean/recarr/RecordAnnotationProcessor.java:269-270 | `LinkedHashMap.put`: an existing key has its value replaced in place, a new key is appended last (its properties are `PutGet`, `PutGetOther`, `PutKeys`, `PutAbsent`, `PutPresent`, `PutDistinct`) |
| OrderedMap.PutGet | record-array/src/main/java/com/aivean/recarr/RecordAnnotationProcessor.java:269-270 | after `put(k, v)`, `get(k)` is `v` |
| OrderedMap.PutGetOther | record-array/src/main/java/com/aivean/recarr/RecordAnnotationProcessor.java:269-270 | `put(k, v)` does not change the lookup of any other key |
| OrderedMap.PutKeys | record-array/src/main/java/com/aivean/recarr/RecordAnnotationProcessor.java:236-239 | re-putting a key keeps its first-insertion position; a new key goes to the end |
| OrderedMap.PutAbsent | record-array/src/main/java/com/aivean/recarr/RecordAnnotationProcessor.java:269 | putting a new key appends exactly one entry |
| OrderedMap.PutPresent | record-array/src/main/java/com/aivean/recarr/RecordAnnotationProcessor.java:300 | putting the value a key already has leaves the map unchanged |
| OrderedMap.PutDistinct | record-array/src/main/java/com/aivean/recarr/RecordAnnotationProcessor.java:236-239 | a map never holds the same key twice |
| JavaValues.Wrap | record-array/src/main/java/com/aivean/recarr/RecordAnnotationProcessor.java:63-65 | Java `int` arithmetic: the result is congruent to the exact value modulo 2^32 and equals it when it is in range |
| JavaValues.ToInt | record-array/src/main/java/com/aivean/recarr/RecordAnnotationProcessor.java:76-77 | a 32-bit pattern read as a signed `int` is congruent to its unsigned value modulo 2^32 |
| JavaValues.DoubleToLongBits | record-array/src/main/java/com/aivean/recarr/RecordAnnotationProcessor.java:61 | `Double.doubleToLongBits` leaves every non-NaN pattern unchanged and maps NaNs to NaNs |
| JavaValues.FloatToIntBits | record-array/src/main/java/com/aivean/recarr/RecordAnnotationProcessor.java:76-77 | `Float.floatToIntBits` leaves every non-NaN pattern unchanged and maps NaNs to NaNs |
| JavaValues.Default | record-array/src/main/java/com/aivean/recarr/RecordAnnotationProcessor.java:142 | the initial element of a fresh array has the field's type and is zero, `false` or `null` |
| JavaValues.ObjectsHashConsistent | record-array/src/main/java/com/aivean/recarr/RecordAnnotationProcessor.java:88 | for reference operations that obey the `equals`/`hashCode` contract, `Objects.equals` implies equal `Objects.hashCode`, null included |
| JavaValues.DoubleBitsEqual | record-array/src/main/java/com/aivean/recarr/RecordAnnotationProcessor.java:108 | two doubles have the same canonical bits exactly when their bits agree or both are NaN |
| JavaValues.ZeroIsNotNaN | record-array/src/main/java/com/aivean/recarr/RecordAnnotationProcessor.java:76-77 | a float equal to `+0.0f` is not NaN and is its own canonical pattern |
| Schema.NameClasses | record-array/src/main/java/com/aivean/recarr/RecordAnnotationProcessor.java:284-316 | the `get`, `is`, `set` and `copy` branches are tested in that order, so a name that takes one branch cannot take a later one |
| Schema.Validate | record-array/src/main/java/com/aivean/recarr/RecordAnnotationProcessor.java:256-263 | `validateField` accepts exactly a non-empty field name whose known type, if any, is the new type |
| Schema.Step | record-array/src/main/java/com/aivean/recarr/RecordAnnotationProcessor.java:252-336 | one member succeeds exactly when its signature is well formed and it agrees with the known field type; then the field map, getter map, setter set and copy flag change exactly as its kind says, and nothing else changes |
| Schema.Fold | record-array/src/main/java/com/aivean/recarr/RecordAnnotationProcessor.java:251-338 | the members are processed in declaration order and the first failing member's error aborts extraction (its properties are `FoldSucceedsIff`, `FoldKeyOrder`, `FoldFieldTypes`, `FoldAccessorKinds`, `FoldValid`, `FoldCopyFlag` and the `FoldPreserves*` lemmas) |
| Schema.Extract | record-array/src/main/java/com/aivean/recarr/RecordAnnotationProcessor.java:150-155 | a `@Record` element that is not an interface is rejected; otherwise the schema is the fold of its members from empty maps (the loop `ExtractSchema` is proved equal to it) |
| Schema.ExtractSchema | record-array/src/main/java/com/aivean/recarr/RecordAnnotationProcessor.java:234-338 | the imperative loop over the members returns exactly the fold of the per-member steps, including the first error |
| Schema.FoldSucceedsIff | record-array/src/main/java/com/aivean/recarr/RecordAnnotationProcessor.java:251-338 | extraction succeeds exactly when every member is well formed and all accessors of each field agree on its type |
| Schema.EmptyFieldNameRejected | record-array/src/main/java/com/aivean/recarr/RecordAnnotationProcessor.java:256-259 | any interface with a method named exactly `get`, `is` or `set` fails to extract |
| Schema.EmptyFieldNameMessage | record-array/src/main/java/com/aivean/recarr/RecordAnnotationProcessor.java:257-258 | such a method reports "Invalid getter name" with the method's name |
| Schema.ConflictMessage | record-array/src/main/java/com/aivean/recarr/RecordAnnotationProcessor.java:260-262 | a getter whose type differs from the known field type reports "Conflicting getter types" with both types |
| Schema.FoldKeyOrder | record-array/src/main/java/com/aivean/recarr/RecordAnnotationProcessor.java:266-270 | a field's position in both maps is that of its first accessor (resp. getter): the keys are the accessors' fields in order, without repeats |
| Schema.FoldFieldTypes | record-array/src/main/java/com/aivean/recarr/RecordAnnotationProcessor.java:298-300 | after extraction every field has the type of each accessor that named it |
| Schema.FoldAccessorKinds | record-array/src/main/java/com/aivean/recarr/RecordAnnotationProcessor.java:270 | every getter's field is in the getter map and every setter's field is writable |
| Schema.FoldPreservesType | record-array/src/main/java/com/aivean/recarr/RecordAnnotationProcessor.java:260-263 | a known field never changes its type |
| Schema.FoldPreservesGetterKey | record-array/src/main/java/com/aivean/recarr/RecordAnnotationProcessor.java:270 | a field with a getter keeps it |
| Schema.FoldPreservesSetter | record-array/src/main/java/com/aivean/recarr/RecordAnnotationProcessor.java:301-308 | a writable field stays writable |
| Schema.FoldCopyFlag | record-array/src/main/java/com/aivean/recarr/RecordAnnotationProcessor.java:316-325 | `hasCopyMethod` is set exactly when some member is a `copy` method |
| Schema.FoldValid | record-array/src/main/java/com/aivean/recarr/RecordAnnotationProcessor.java:236-239 | the extracted maps have distinct keys; every getter field and every setter field is a field |
| Schema.IrrelevantMembersIgnored | record-array/src/main/java/com/aivean/recarr/RecordAnnotationProcessor.java:252 | default methods, non-methods and names with no accessor prefix other than `copy` do not affect the result |
| Initializer.IndexOf | record-array/src/main/java/com/aivean/recarr/RecordAnnotationProcessor.java:136 | `String.indexOf`: -1 exactly when absent, otherwise the first occurrence |
| Initializer.LastIndexOf | record-array/src/main/java/com/aivean/recarr/RecordAnnotationProcessor.java:136 | `String.lastIndexOf`: -1 exactly when absent, otherwise the last occurrence |
| Initializer.EraseGenericArray | record-array/src/main/java/com/aivean/recarr/RecordAnnotationProcessor.java:134-136 | erasure removes exactly the text from the first `<` to the last `>` |
| Initializer.EraseNoGenerics | record-array/src/main/java/com/aivean/recarr/RecordAnnotationProcessor.java:133-136 | a type without `<` is left alone |
| Initializer.InsertLengthBeforeDims | record-array/src/main/java/com/aivean/recarr/RecordAnnotationProcessor.java:139 | `[__l]` goes before the first `[` |
| Initializer.AllocationAddsLeadingDimension | record-array/src/main/java/com/aivean/recarr/RecordAnnotationProcessor.java:132-139 | for an array type the allocated type is the erased type with one more `[`, added before all existing dimensions |
| Initializer.AllocationOfArrayField | record-array/src/main/java/com/aivean/recarr/RecordAnnotationProcessor.java:132-139 | for `Base<Args>[]...` the allocated type is `Base[__l][]...` |
| Initializer.FieldInitializer | record-array/src/main/java/com/aivean/recarr/RecordAnnotationProcessor.java:131-144 | `generateFieldInitializer`: an array type gets a cast allocation of its erased type with `[__l]` inserted, any other type `new T[__l]` (its properties are `ArrayFieldInitializer`, `PlainFieldInitializer`, `AllocationAddsLeadingDimension`) |
| Initializer.ArrayFieldInitializer | record-array/src/main/java/com/aivean/recarr/RecordAnnotationProcessor.java:132-140 | an array field becomes `f = (T[])(new Base[__l][]...);` |
| Initializer.PlainFieldInitializer | record-array/src/main/java/com/aivean/recarr/RecordAnnotationProcessor.java:141-142 | a field whose type does not end in `[]` becomes `f = new T[__l];` |
| Initializer.PlainFieldExample | record-array/src/main/java/com/aivean/recarr/RecordAnnotationProcessor.java:141-142 | the `int` field `Age` becomes `Age = new int[__l];` |
| EqualsHash.FieldEquals | record-array/src/main/java/com/aivean/recarr/RecordAnnotationProcessor.java:107-114 | one field's comparison chosen by its declared type: `Double.compare`/`Float.compare` as equality of canonical bits, `==` for the other primitives, `Objects.equals` for references (properties in `FieldEqualsReflexive`, `NaNsCompareEqual`, `SignedZerosFloat`) |
| EqualsHash.FieldHash | record-array/src/main/java/com/aivean/recarr/RecordAnnotationProcessor.java:60-89 | one field's hash word by declared type: the folded `doubleToLongBits`, `floatToIntBits` except 0 for `+0.0f`, the folded `long`, 1/0 for `boolean`, the value for `int`-like types, `Objects.hashCode` for references (consistency with `FieldEquals` is `FieldHashConsistent`) |
| EqualsHash.Equals | record-array/src/main/java/com/aivean/recarr/RecordAnnotationProcessor.java:98-129 | `generateEquals`: true for the same instance, false for a non-record, otherwise the getter-order comparisons (`FieldsEqualIff`, `EqualsReflexive`, `EqualsSymmetric`, `FieldChangesEquals`) |
| EqualsHash.Combine | record-array/src/main/java/com/aivean/recarr/RecordAnnotationProcessor.java:63-65 | `result = h0` then `result = result * 31 + h` per later word, wrapped to `int` (`CombineStep`, `CombineIsPolynomial`, `OneWordChangesHash`) |
| EqualsHash.HashCode | record-array/src/main/java/com/aivean/recarr/RecordAnnotationProcessor.java:44-96 | `generateHashCode`: the combined hash words of the getter fields, and no hash code when there is no getter (`RunHashCode` runs the emitted statements against it; `EqualsImpliesEqualHash`, `FieldChangesHash`) |
| EqualsHash.FieldHashes | record-array/src/main/java/com/aivean/recarr/RecordAnnotationProcessor.java:55-90 | one hash word per getter field, in getter order, each by the field's declared type |
| EqualsHash.RunHashStatements | record-array/src/main/java/com/aivean/recarr/RecordAnnotationProcessor.java:54-93 | running the emitted statements, with the `first` flag choosing between starting and `result * 31 +`, yields the combined hash |
| EqualsHash.RunHashCode | record-array/src/main/java/com/aivean/recarr/RecordAnnotationProcessor.java:44-96 | the generated `hashCode()` of a record with getters returns the specified hash |
| EqualsHash.CombineStep | record-array/src/main/java/com/aivean/recarr/RecordAnnotationProcessor.java:63-65 | each later field turns `result` into `result * 31 + h`, wrapped to an `int` |
| EqualsHash.CombineIsPolynomial | record-array/src/main/java/com/aivean/recarr/RecordAnnotationProcessor.java:63-65 | the wrapped running hash is the exact base-31 polynomial of the words reduced to an `int` |
| EqualsHash.OneWordChangesHash | record-array/src/main/java/com/aivean/recarr/RecordAnnotationProcessor.java:63-65 | changing any single hash word changes the combined hash |
| EqualsHash.FieldsEqualIff | record-array/src/main/java/com/aivean/recarr/RecordAnnotationProcessor.java:101-117 | the early-return comparisons in getter order are true exactly when every getter field compares equal |
| EqualsHash.FieldEqualsReflexive | record-array/src/main/java/com/aivean/recarr/RecordAnnotationProcessor.java:107-114 | every field value compares equal to itself, NaN included (via `compare`) |
| EqualsHash.EqualsReflexive | record-array/src/main/java/com/aivean/recarr/RecordAnnotationProcessor.java:119-126 | a record equals any record whose getters return the same values |
| EqualsHash.EqualsSymmetric | record-array/src/main/java/com/aivean/recarr/RecordAnnotationProcessor.java:101-126 | between two generated records, `equals` is symmetric when reference `equals` is |
| EqualsHash.SignedZerosFloat | record-array/src/main/java/com/aivean/recarr/RecordAnnotationProcessor.java:76-77 | `+0.0f` and `-0.0f` both hash to 0 yet compare unequal |
| EqualsHash.NaNsCompareEqual | record-array/src/main/java/com/aivean/recarr/RecordAnnotationProcessor.java:107-108 | two different NaN doubles compare equal |
| EqualsHash.FieldHashConsistent | record-array/src/main/java/com/aivean/recarr/RecordAnnotationProcessor.java:60-89 | per field, equal values have equal hash words |
| EqualsHash.EqualsImpliesEqualHash | record-array/src/main/java/com/aivean/recarr/RecordAnnotationProcessor.java:44-129 | the generated `equals` and `hashCode` honour the `Object` contract: equal records hash alike |
| EqualsHash.OnlyGettersMatter | record-array/src/main/java/com/aivean/recarr/RecordAnnotationProcessor.java:101 | setter-only fields take part in neither `equals` nor `hashCode` |
| EqualsHash.FieldChangesHash | record-array/src/main/java/com/aivean/recarr/RecordAnnotationProcessor.java:55-90 | changing one getter field to a value with a different hash word changes the record's hash |
| EqualsHash.FieldChangesEquals | record-array/src/main/java/com/aivean/recarr/RecordAnnotationProcessor.java:101-117 | changing one getter field to an unequal value makes the records unequal |
| Flatten.ParseDimensions | record-array/src/main/java/com/aivean/recarr/RecordAnnotationProcessor.java:413-426 | zero dimensions, more than three, or a non-positive one are rejected with their own error; missing dimensions become 1; the volume is the product |
| Flatten.ProductOfPadded | record-array/src/main/java/com/aivean/recarr/RecordArray.java:55-58 | the product of the given dimensions is the product with missing ones filled with 1 |
| Flatten.CheckDimensions | record-array/src/main/java/com/aivean/recarr/RecordAnnotationProcessor.java:424-427 | the constructor's checks plus an overflow check: accepted dimensions give an `__l` equal to the exact product |
| Flatten.LengthAsWritten | record-array/src/main/java/com/aivean/recarr/RecordAnnotationProcessor.java:427 | `__dim0 * __dim1 * __dim2` evaluated left to right in `int` arithmetic, each product wrapping (`NoWrapWhenFits`, `SizeWrapsAsWritten`) |
| Flatten.NoWrapWhenFits | record-array/src/main/java/com/aivean/recarr/RecordAnnotationProcessor.java:434-435 | when the product is an `int`, `size()` computed in `int` arithmetic is the exact product |
| Flatten.SizeWrapsAsWritten | record-array/src/main/java/com/aivean/recarr/RecordAnnotationProcessor.java:424-427 | the original constructor accepts `[65536, 65536]`, and its `__l` wraps to 0 |
| Flatten.Flat2 | record-array/src/main/java/com/aivean/recarr/RecordAnnotationProcessor.java:441-442 | `i0 * __dim1 + i1` in `int` arithmetic (`Flat2Exact`, `Flat2RoundTrip`, `Flat2Injective`, `RowOverrun`) |
| Flatten.Flat3 | record-array/src/main/java/com/aivean/recarr/RecordAnnotationProcessor.java:444-445 | `(i0 * __dim1 + i1) * __dim2 + i2` in `int` arithmetic (`Flat3Exact`, `Flat3RoundTrip`, `Flat3Injective`) |
| Flatten.Flat2Exact | record-array/src/main/java/com/aivean/recarr/RecordAnnotationProcessor.java:441-442 | for in-range indices `i0 * d1 + i1` does not wrap and lands inside the array |
| Flatten.Flat3Exact | record-array/src/main/java/com/aivean/recarr/RecordAnnotationProcessor.java:444-445 | for in-range indices `(i0 * d1 + i1) * d2 + i2` does not wrap and lands inside the array |
| Flatten.Flat2RoundTrip | record-array/src/main/java/com/aivean/recarr/RecordArray.java:14-19 | every slot is reachable through `get(i, j)` |
| Flatten.Flat2Injective | record-array/src/main/java/com/aivean/recarr/RecordArray.java:14-19 | distinct in-range index pairs address distinct slots |
| Flatten.Flat3RoundTrip | record-array/src/main/java/com/aivean/recarr/RecordArray.java:21-26 | every slot is reachable through `get(i, j, k)` with the row-major split of its index |
| Flatten.Flat3Injective | record-array/src/main/java/com/aivean/recarr/RecordArray.java:21-26 | distinct in-range index triples address distinct slots |
| Flatten.RowOverrun | record-array/src/main/java/com/aivean/recarr/RecordAnnotationProcessor.java:441-442 | `get(i, j)` checks no bound: `j == d1` silently addresses the first slot of the next row |
| Container.RecordArrayImpl.constructor | record-array/src/main/java/com/aivean/recarr/RecordAnnotationProcessor.java:413-431 | a container with the given schema and dimensions whose every slot holds each field's default value |
| Container.AllocateColumns | record-array/src/main/java/com/aivean/recarr/RecordAnnotationProcessor.java:389-395 | one fresh array of length `__l` per field, arrays pairwise distinct, filled with defaults |
| Container.Blank | record-array/src/main/java/com/aivean/recarr/RecordAnnotationProcessor.java:393-395 | a fresh slot has a value for every field |
| Container.RecordArrayImpl.Size | record-array/src/main/java/com/aivean/recarr/RecordAnnotationProcessor.java:434-436 | `size()` is the product of the dimensions and is positive |
| Container.RecordArrayImpl.Get | record-array/src/main/java/com/aivean/recarr/RecordAnnotationProcessor.java:438-440 | a fresh cursor on this container at the given index |
| Container.RecordArrayImpl.Get2 | record-array/src/main/java/com/aivean/recarr/RecordAnnotationProcessor.java:441-443 | a fresh cursor at `i0 * d1 + i1` |
| Container.RecordArrayImpl.Get3 | record-array/src/main/java/com/aivean/recarr/RecordAnnotationProcessor.java:444-446 | a fresh cursor at `(i0 * d1 + i1) * d2 + i2` |
| Container.RecordArrayImpl.Set | record-array/src/main/java/com/aivean/recarr/RecordAnnotationProcessor.java:397-402 | slot `i` takes the values the source's getters returned before the call, setter-only fields keep theirs, and every other slot is unchanged, even when the source is a cursor into this container |
| Container.RecordArrayImpl.CopyGetter | record-array/src/main/java/com/aivean/recarr/RecordAnnotationProcessor.java:400 | one statement `this.f[i] = value.getF();` keeps the copy-in-progress invariant |
| Container.RecordArrayImpl.Set2 | record-array/src/main/java/com/aivean/recarr/RecordAnnotationProcessor.java:450-452 | `set(i0, i1, v)` is `set(i0 * d1 + i1, v)` |
| Container.RecordArrayImpl.Set3 | record-array/src/main/java/com/aivean/recarr/RecordAnnotationProcessor.java:454-456 | `set(i0, i1, i2, v)` is `set((i0 * d1 + i1) * d2 + i2, v)` |
| Container.Create | record-array/src/main/java/com/aivean/recarr/RecordArray.java:68-74 | an unregistered class is an error rather than `null`; a registered one gives a new blank container with the checked dimensions and `size()` equal to their product, or the dimension error |
| Container.Cursor.constructor | record-array/src/main/java/com/aivean/recarr/RecordAnnotationProcessor.java:355-357 | a cursor holds only its container and index |
| Container.Cursor.Get | record-array/src/main/java/com/aivean/recarr/RecordAnnotationProcessor.java:272 | a cursor getter reads its own slot of the field's column (`ObservedView` states it for all getters) |
| Container.Cursor.SetField | record-array/src/main/java/com/aivean/recarr/RecordAnnotationProcessor.java:301-303 | a cursor setter changes that one field of its own slot and nothing else |
| Container.Cursor.Copy | record-array/src/main/java/com/aivean/recarr/RecordAnnotationProcessor.java:326-328 | `copy()` on a cursor is a new snapshot of the slot's getter values |
| Container.Detached.constructor | record-array/src/main/java/com/aivean/recarr/RecordAnnotationProcessor.java:368-380 | the snapshot's getter fields are the other record's getter values; setter-only fields start at their defaults |
| Container.Detached.SetField | record-array/src/main/java/com/aivean/recarr/RecordAnnotationProcessor.java:309-311 | a snapshot setter changes only the snapshot's own field |
| Container.Detached.Copy | record-array/src/main/java/com/aivean/recarr/RecordAnnotationProcessor.java:331-333 | `copy()` on a snapshot is a new snapshot of its getter values |
| Container.SnapshotOf | record-array/src/main/java/com/aivean/recarr/RecordAnnotationProcessor.java:364-366 | a snapshot has a private field for every record field |
| Container.Observed | record-array/src/main/java/com/aivean/recarr/RecordAnnotationProcessor.java:400 | what `value.getF()` returns, for exactly the getter fields |
| Container.ObservedView | record-array/src/main/java/com/aivean/recarr/RecordAnnotationProcessor.java:272 | a cursor's getters return its slot's values |
| Container.ObservedSnapshot | record-array/src/main/java/com/aivean/recarr/RecordAnnotationProcessor.java:277 | a snapshot's getters return its own fields |
| Container.ObservedForeign | record-array/src/main/java/com/aivean/recarr/RecordArray.java:28-33 | any other implementation is seen only through what its getters return |
| Container.RecordEquals | record-array/src/main/java/com/aivean/recarr/RecordAnnotationProcessor.java:119-126 | `r.equals(o)` for a cursor or snapshot: identity first, then a non-record is unequal, then `Equals` on the values the getters of both return (`EqualWhenSameGetters`, `UnequalWhenOneGetterDiffers`) |
| Container.RecordHashCode | record-array/src/main/java/com/aivean/recarr/RecordAnnotationProcessor.java:44-96 | `r.hashCode()` for a cursor or snapshot: `HashCode` of the values its getters return (`EqualWhenSameGetters`, `UnequalWhenOneGetterDiffers`) |
| Container.EqualWhenSameGetters | record-array/src/main/java/com/aivean/recarr/RecordAnnotationProcessor.java:119-126 | a generated record equals, and hashes like, any record whose getters return the same values |
| Container.UnequalWhenOneGetterDiffers | record-array/src/main/java/com/aivean/recarr/RecordAnnotationProcessor.java:101-126 | a record differing in one getter field by an unequal value with a different hash word is unequal and hashes differently |
| Scenarios.GetterStep | record-array/src/main/java/com/aivean/recarr/RecordAnnotationProcessor.java:284-287 | `get<F>`/`is<F>` with a new field appends it to both maps |
| Scenarios.SetterStep | record-array/src/main/java/com/aivean/recarr/RecordAnnotationProcessor.java:288-300 | `void set<F>(T)` on a known field of type `T` only marks it writable |
| Scenarios.CopyStep | record-array/src/main/java/com/aivean/recarr/RecordAnnotationProcessor.java:316-325 | `T copy()` only sets the copy flag |
| Scenarios.PairFold | record-array/src/main/java/com/aivean/recarr/RecordAnnotationProcessor.java:266-300 | a getter followed by its setter adds the field, its getter and its writability |
| Scenarios.PairsFold | record-array/src/main/java/com/aivean/recarr/RecordAnnotationProcessor.java:251-338 | an interface made of getter/setter pairs for distinct fields yields those fields in declaration order, all writable |
| Scenarios.TrailerFold | src/main/java/com/aivean/testrecarr/SimpleRecord.java:19-23 | `copy()` and the default method add the copy flag and nothing else |
| Scenarios.SimpleRecordExtracted | src/main/java/com/aivean/testrecarr/SimpleRecord.java:5-24 | `SimpleRecord` extracts to fields Name: String, Age: int, Male: boolean, in that order, all writable, with `copy` |
| Scenarios.IdentityAbsence | src/test/java/com/aivean/testrecarr/QuirksTest.java:12-23 | two `get(i)` calls give distinct cursors that are equal and hash alike |
| Scenarios.SwapThroughView | src/test/java/com/aivean/testrecarr/QuirksTest.java:44-54 | swapping through a live cursor leaves both slots with the old slot `j`'s values, and the cursors equal |
| Scenarios.SwapThroughCopy | src/test/java/com/aivean/testrecarr/QuirksTest.java:56-74 | swapping through `copy()` exchanges the two slots' getter values |
| Scenarios.CopyOut | src/test/java/com/aivean/testrecarr/QuirksTest.java:67 | `get(i).copy()` holds slot `i`'s getter values |
| Scenarios.SetFromSlot | src/test/java/com/aivean/testrecarr/QuirksTest.java:68 | `set(j, get(i))` copies slot `i`'s getter values into slot `j` only |
| Scenarios.Assign | src/test/java/com/aivean/testrecarr/RecArrTest.java:61-77 | after `set(j, get(i))` slot `i` is unchanged and the two cursors are equal |
| Scenarios.SetFromForeign | src/test/java/com/aivean/testrecarr/QuirksTest.java:84-100 | `set` from another implementation stores its getter values, and the cursor then equals it |
| Scenarios.CopyEqualsSource | src/test/java/com/aivean/testrecarr/RecArrTest.java:35-51 | a copy holds the slot's getter values, equals its cursor and hashes alike |
| Scenarios.MutatedCopyDiffers | src/test/java/com/aivean/testrecarr/RecArrTest.java:53-58 | mutating the copy leaves the container unchanged and makes copy and cursor unequal with different hashes |
| Scenarios.FillRowMajor | src/test/java/com/aivean/testrecarr/DimensionsTest.java:43-70 | filling `get(i, j, k)` with a running counter in row-major order leaves every slot `n` holding `n`, so `get(n).getAge() == n` |
| Scenarios.FillPlane | src/test/java/com/aivean/testrecarr/DimensionsTest.java:51-57 | the loop over `j` numbers the `d1 * d2` slots of plane `i` consecutively |
| Scenarios.FillRow | src/test/java/com/aivean/testrecarr/DimensionsTest.java:52-56 | the loop over `k` numbers the `d2` slots of row `(i, j)` consecutively |
| Scenarios.FillSlot | src/test/java/com/aivean/testrecarr/DimensionsTest.java:53 | `get(i, j, k).setAge(index)` writes slot `index` and nothing else |
| Scenarios.NumberSlots | src/test/java/com/aivean/testrecarr/DimensionsTest.java:15-20 | the fill loop `get(i).setF(i)` leaves every slot `i` holding `i` in `F` and nothing else changed |

## Left out

- `pad` only indents emitted text. The exact text, indentation and
  declarations of the emitted Java are not modelled; only the behaviour
  they encode is. This also covers the `long temp;` local of `hashCode`
  and the field declarations.
- Name mangling is not modelled, because its random suffix is
  nondeterministic. Generated classes are identified by the record type
  name.
- The annotation-processing plumbing is not modelled: `init`, the `Filer`,
  the `Messager` and writing the source file.
- The reflective factory table of `RecordArrayFactoryImpl` is a parameter of
  `Container.Create`: a map from record class to extracted schema.
- Container.Create: the doc comment's `IllegalArgumentException` for
  invalid dimensions is not claimed. The caller sees a `RuntimeException`
  from `RecordArrayFactory.create` instead, with the constructor's
  `IllegalArgumentException` deep in its cause chain. The model reports
  this case as `FailedToCreate`. Java exception classes and their cause
  chains are not modelled.
- IEEE arithmetic is not modelled. Floats and doubles are their bit
  patterns. `Double.compare`/`Float.compare` are modelled only as "equal
  or not", which is all the generated code tests. `doubleToLongBits` and
  `floatToIntBits` follow their documented NaN canonicalisation.
- `Objects.equals` and `Objects.hashCode` on non-null references are
  abstract parameters (`RefOps`). Only their null handling is fixed.
- `byte`, `short`, `char` and `int` values are all held as `int` values,
  the widened value the generated code compares and hashes. Their narrower
  ranges are not modelled.
- Types are the strings the compiler prints for them. The `copy` return
  type check is modelled as string equality with the record type.
- The `@Record`-on-a-non-interface check is a boolean flag of the
  declaration. Aborting the whole annotation round is modelled as the
  error `OnlyInterfaces`.
- EqualsHash.HashCode: a record with no getter fields has no hash code
  (`None`). The generated method returns an unassigned local, which the
  Java compiler rejects.
- Container.RecordArrayImpl.Set: the source record must not be a cursor
  into another container that shares backing arrays with this one
  (`Separate`). Containers built by the constructor always allocate fresh
  arrays, so this always holds.
- Container.RecordArrayImpl.Set, Container.Cursor.SetField,
  Container.Cursor.Copy: indices must be in range. The JVM's
  array-bounds exception is out of contract. `Get`, `Get2` and `Get3`
  create cursors without any check, as the source does.
- Container.RecordArrayImpl.constructor: it requires `Fits(d)`, that the
  slot count is an `int`. The source constructor also accepts dimensions
  whose product wraps, such as `[65536, 65536]`. That case is modelled
  only as written, by `Flatten.ParseDimensions` and
  `Flatten.SizeWrapsAsWritten` (see Findings). No container is built for
  it.
- Container.Cursor.SetField, Container.Detached.SetField: the value
  stored may be of any `Value` shape, and so may a foreign record's
  `values`. Java's typing admits only values of the field's declared
  type, and the model does not require `HasType` here. For an ill-typed
  value, `FieldEquals` falls back to Dafny equality of values and
  `FieldHash` to 0.
- Record values are keyed by field, not by getter. A foreign
  implementation whose `getX()` and `isX()` return different values
  cannot be expressed. The generated code calls only one getter per
  field: the last one declared, because `fieldsToGetters.put` (line 270
  of `RecordAnnotationProcessor.java`) replaces earlier entries.
- Container.Detached.constructor: the snapshot's setter-only fields start
  from their defaults. The generated class declares them, but its
  constructor assigns only the getter fields.
- Flatten.ParseDimensions: the constructor's checks as written. The
  container model uses Flatten.CheckDimensions, which also rejects a slot
  count beyond `Integer.MAX_VALUE` (see Findings).
- Allocating multi-dimensional JVM arrays for array-typed fields is not
  modelled. Only the initializer string is.
- The default method `getNameAndAge` of `SimpleRecord` is not modelled:
  it is user code, and extraction ignores default methods. The example
  schemas `ComplexRecord` and `PointRecord` are not instantiated.
- Equality from a foreign implementation's side is not modelled, and
  neither is the resulting asymmetry of `equals` (`rec.equals(arr.get(0))`
  is governed by that class's own `equals`).
- The swap, copy and assignment scenarios are proved for any schema. The
  literal values `1`, `"a"` and `true` of the tests are not instantiated.
- There is no concurrency in the source. Races on a container are out of
  contract.

## Findings

| source | as written | input that shows it | evidently intended | confidence | as-written member | corrected member |
|---|---|---|---|---|---|---|
| record-array/src/main/java/com/aivean/recarr/RecordAnnotationProcessor.java:424-427 | The constructor checks only that each dimension is positive, then computes `__l = __dim0 * __dim1 * __dim2` in 32-bit `int` arithmetic, which wraps silently. | dimensions `[65536, 65536]` pass the check, and `__l` and `size()` wrap to 0 | dimensions whose product is not an `int` should be rejected, so that `size()` is the product the doc comment promises | not executed | Flatten.SizeWrapsAsWritten | Flatten.CheckDimensions |
