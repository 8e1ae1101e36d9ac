/**
 * The container class the processor emits for one record interface, and
 * the two record classes nested in it.
 *
 *   `RecordArrayImpl`  the struct-of-arrays container: three dimensions and
 *                      one backing array per field, each of length
 *                      `__dim0 * __dim1 * __dim2`.
 *   `Cursor`           the `$$Record` class `get` returns: an index into the
 *                      container, whose accessors read and write
 *                      `field[__index]`.
 *   `Detached`         the `$$DetachedRecord` class `copy()` returns: one
 *                      private field per record field.
 *
 * A value handed to `set` or to `equals` may be any object implementing the
 * interface; `Record` names the three kinds the model tells apart.
 */
module Container {
  import opened Wrappers
  import opened OrderedMap
  import opened JavaValues
  import opened Schema
  import opened EqualsHash
  import opened Flatten

  class RecordArrayImpl {
    const schema: Schema
    const dims: Dims
    /** The generated `private final T[] f;` fields, by field name. */
    const columns: map<string, array<Value>>
    ghost const Repr: set<array<Value>>

    ghost predicate Valid()
    {
      SchemaValid(schema) &&
      Positive(dims) && Fits(dims) &&
      columns.Keys == KeySet(schema.fields) &&
      (forall f :: f in columns ==> columns[f].Length == Volume(dims)) &&
      (forall f, g :: f in columns && g in columns && f != g ==> columns[f] != columns[g]) &&
      (forall f :: f in columns ==> columns[f] in Repr)
    }

    /** What slot `i` holds, field by field. */
    ghost function Slot(i: int): Rec
      reads Repr
      requires Valid() && 0 <= i < Volume(dims)
    {
      map f | f in columns :: columns[f][i]
    }

    /**
     * The generated constructor, after `create` has checked the dimensions:
     * one array per field, in field order, each holding the element type's
     * default value in every slot.
     */
    constructor (s: Schema, d: Dims)
      requires SchemaValid(s) && Positive(d) && Fits(d)
      ensures Valid() && schema == s && dims == d && fresh(Repr)
      ensures forall i :: 0 <= i < Volume(d) ==> Slot(i) == Blank(s)
    {
      var n := LengthAsWritten(d);
      NoWrapWhenFits(d);
      var m := AllocateColumns(s, n);
      schema := s;
      dims := d;
      columns := m;
      Repr := set f | f in m :: m[f];
      new;
      BlankSlots();
    }

    /** Arrays filled with their fields' defaults make every slot blank. */
    lemma BlankSlots()
      requires Valid()
      requires forall f, i :: f in columns && 0 <= i < Volume(dims) ==> columns[f][i] == Default(TypeOf(schema, f))
      ensures forall i :: 0 <= i < Volume(dims) ==> Slot(i) == Blank(schema)
    {
      forall i | 0 <= i < Volume(dims)
        ensures Slot(i) == Blank(schema)
      {
        assert Slot(i).Keys == Blank(schema).Keys;
      }
    }

    /** `size()`: `__dim0 * __dim1 * __dim2`, the number of slots. */
    function Size(): (n: JInt)
      requires Valid()
      ensures n == Volume(dims) && n > 0
    {
      NoWrapWhenFits(dims);
      LengthAsWritten(dims)
    }

    /** `get(i)`: a new cursor at `i`.  No index is checked here. */
    method Get(i: JInt) returns (c: Cursor)
      ensures fresh(c) && c.owner == this && c.index == i
    {
      c := new Cursor(this, i);
    }

    /** `get(i0, i1)`: a new cursor at `i0 * __dim1 + i1`. */
    method Get2(i0: JInt, i1: JInt) returns (c: Cursor)
      ensures fresh(c) && c.owner == this && c.index == Flat2(dims, i0, i1)
    {
      c := new Cursor(this, Flat2(dims, i0, i1));
    }

    /** `get(i0, i1, i2)`: a new cursor at `(i0 * __dim1 + i1) * __dim2 + i2`. */
    method Get3(i0: JInt, i1: JInt, i2: JInt) returns (c: Cursor)
      ensures fresh(c) && c.owner == this && c.index == Flat3(dims, i0, i1, i2)
    {
      c := new Cursor(this, Flat3(dims, i0, i1, i2));
    }

    /**
     * `set(i, value)`: `this.f[i] = value.getF();` for every getter field in
     * getter order.  Each getter is read just before its own field is
     * written, so even a cursor into this very container is copied
     * faithfully: the fields written earlier are never the ones read later.
     */
    method Set(i: JInt, value: Record)
      requires Valid() && 0 <= i < Volume(dims)
      requires Conforms(value, schema) && Separate(value, this)
      modifies Repr
      ensures Valid()
      ensures Slot(i) == Overlay(old(Slot(i)), old(Observed(value, schema)))
      ensures forall j :: 0 <= j < Volume(dims) && j != i ==> Slot(j) == old(Slot(j))
    {
      ghost var source := Observed(value, schema);
      ghost var init := Contents();
      SlotsOfContents(init);
      StartProgress(i, value, source, init);
      var k := 0;
      while k < |schema.getters|
        invariant SetProgress(i, value, source, init, k)
      {
        CopyGetter(i, value, source, init, k);
        k := k + 1;
      }
      SetOutcome(i, value, source, init);
    }

    /** `set(i0, i1, value)`: `set(i0 * __dim1 + i1, value)`. */
    method Set2(i0: JInt, i1: JInt, value: Record)
      requires Valid() && 0 <= Flat2(dims, i0, i1) < Volume(dims)
      requires Conforms(value, schema) && Separate(value, this)
      modifies Repr
      ensures Valid()
      ensures Slot(Flat2(dims, i0, i1)) == Overlay(old(Slot(Flat2(dims, i0, i1))), old(Observed(value, schema)))
      ensures forall j :: 0 <= j < Volume(dims) && j != Flat2(dims, i0, i1) ==> Slot(j) == old(Slot(j))
    {
      Set(Flat2(dims, i0, i1), value);
    }

    /** `set(i0, i1, i2, value)`: `set((i0 * __dim1 + i1) * __dim2 + i2, value)`. */
    method Set3(i0: JInt, i1: JInt, i2: JInt, value: Record)
      requires Valid() && 0 <= Flat3(dims, i0, i1, i2) < Volume(dims)
      requires Conforms(value, schema) && Separate(value, this)
      modifies Repr
      ensures Valid()
      ensures Slot(Flat3(dims, i0, i1, i2)) == Overlay(old(Slot(Flat3(dims, i0, i1, i2))), old(Observed(value, schema)))
      ensures forall j :: 0 <= j < Volume(dims) && j != Flat3(dims, i0, i1, i2) ==> Slot(j) == old(Slot(j))
    {
      Set(Flat3(dims, i0, i1, i2), value);
    }

    /** Every backing array's elements, by field. */
    ghost function Contents(): (c: map<string, seq<Value>>)
      reads Repr
      requires Valid()
      ensures c.Keys == columns.Keys
      ensures forall f :: f in c ==> c[f] == columns[f][..]
    {
      map f | f in columns :: columns[f][..]
    }

    lemma SlotsOfContents(init: map<string, seq<Value>>)
      requires Valid() && init == Contents()
      ensures forall j :: 0 <= j < Volume(dims) ==> Slot(j) == SlotOf(init, j)
    {
    }

    /** The state of `set` after its first `k` statements, against the arrays `init` it started from. */
    ghost predicate SetProgress(i: int, value: Record, source: Rec, init: map<string, seq<Value>>, k: int)
      reads Repr, RecordReads(value)
    {
      Valid() && 0 <= i < Volume(dims) && 0 <= k <= |schema.getters| &&
      Conforms(value, schema) && Separate(value, this) &&
      source.Keys == KeySet(schema.getters) &&
      Written(Contents(), init, source, schema.getters, i, k) &&
      (if value.View? && value.c.owner == this
       then ReadsFrom(init, source, value.c.index)
       else Observed(value, schema) == source)
    }

    /**
     * Statement `k` of `set`: `this.f[i] = value.getF();`.  It reads `value`
     * before it writes, and the write is invisible to every getter of `value`
     * still to come: a cursor into this container reads those from other
     * arrays.
     */
    method CopyGetter(i: JInt, value: Record, ghost source: Rec, ghost init: map<string, seq<Value>>, k: int)
      requires SetProgress(i, value, source, init, k) && k < |schema.getters|
      modifies Repr
      ensures SetProgress(i, value, source, init, k + 1)
    {
      var f := schema.getters[k].0;
      DoneTodoStep(schema.getters, k);
      assert f in KeySet(schema.getters);
      var v := Observe(value, f);
      assert v == source[f] by {
        if value.View? && value.c.owner == this {
          assert v == Contents()[f][value.c.index];
        }
      }
      WrittenStep(Contents(), init, source, schema.getters, i, k, v);
      if !(value.View? && value.c.owner == this) {
        NotRead(value, f);
      }
      WriteSlot(f, i, v, value);
    }

    /** Only a cursor into this container reads its arrays. */
    lemma NotRead(value: Record, f: string)
      requires Valid() && f in columns && Separate(value, this)
      requires !(value.View? && value.c.owner == this)
      ensures columns[f] !in RecordReads(value)
    {
    }

    /** `this.f[i] = v;`: one element of one backing array. */
    method WriteSlot(f: string, i: int, v: Value, ghost value: Record)
      requires Valid() && f in columns && 0 <= i < Volume(dims)
      modifies columns[f]
      ensures Contents() == old(Contents())[f := old(Contents())[f][i := v]]
      ensures columns[f] !in RecordReads(value) && old(Conforms(value, schema)) ==>
                Conforms(value, schema) && Observed(value, schema) == old(Observed(value, schema))
    {
      ghost var pre := Contents();
      columns[f][i] := v;
      forall g | g in columns
        ensures Contents()[g] == pre[f := pre[f][i := v]][g]
      {
        if g != f {
          assert columns[g] != columns[f];
        }
      }
      if columns[f] !in RecordReads(value) {
        assert unchanged(RecordReads(value));
      }
    }

    /** Before the first statement of `set`, nothing is written and every getter is still to be read. */
    lemma StartProgress(i: int, value: Record, source: Rec, init: map<string, seq<Value>>)
      requires Valid() && 0 <= i < Volume(dims)
      requires Conforms(value, schema) && Separate(value, this)
      requires source == Observed(value, schema) && init == Contents()
      ensures SetProgress(i, value, source, init, 0)
    {
      if value.View? && value.c.owner == this {
        forall f | f in source
          ensures f in init && source[f] == init[f][value.c.index]
        {
          assert f in KeySet(schema.getters);
        }
      }
    }

    /** Once every getter is copied, slot `i` shows `source` over its old contents and no other slot moved. */
    lemma SetOutcome(i: int, value: Record, source: Rec, init: map<string, seq<Value>>)
      requires SetProgress(i, value, source, init, |schema.getters|)
      ensures Slot(i) == Overlay(SlotOf(init, i), source)
      ensures forall j :: 0 <= j < Volume(dims) && j != i ==> Slot(j) == SlotOf(init, j)
    {
      var now := Contents();
      SlotsOfContents(now);
      AllDone(schema.getters);
      WrittenOutcome(now, init, source, schema.getters, i, Volume(dims));
    }
  }

  /** Slot `j` of a snapshot of the backing arrays. */
  ghost function SlotOf(init: map<string, seq<Value>>, j: int): Rec
    requires forall f :: f in init ==> 0 <= j < |init[f]|
  {
    map f | f in init :: init[f][j]
  }

  /** Every getter's statement done: slot `i` is `source` over `init`'s slot, and the other slots are `init`'s. */
  lemma WrittenOutcome(now: map<string, seq<Value>>, init: map<string, seq<Value>>, source: Rec, gs: OMap, i: int, n: int)
    requires Written(now, init, source, gs, i, |gs|) && Done(gs, |gs|) == source.Keys
    requires source.Keys <= init.Keys && 0 <= i < n
    requires forall f :: f in init ==> |init[f]| == n
    ensures SlotOf(now, i) == Overlay(SlotOf(init, i), source)
    ensures forall j :: 0 <= j < n && j != i ==> SlotOf(now, j) == SlotOf(init, j)
  {
    var top, base := SlotOf(now, i), SlotOf(init, i);
    forall f | f in top
      ensures top[f] == if f in source then source[f] else base[f]
    {
    }
    OverlayFrom(top, base, source);
    forall j | 0 <= j < n && j != i
      ensures SlotOf(now, j) == SlotOf(init, j)
    {
      assert SlotOf(now, j).Keys == SlotOf(init, j).Keys;
    }
  }

  /** A map that agrees with `top` on its keys and with `base` elsewhere is their overlay. */
  lemma OverlayFrom(now: Rec, base: Rec, top: Rec)
    requires now.Keys == base.Keys && top.Keys <= base.Keys
    requires forall f :: f in now ==> now[f] == if f in top then top[f] else base[f]
    ensures now == Overlay(base, top)
  {
  }

  /**
   * The arrays `now` after the first `k` statements of `set(i, ...)` on the
   * arrays `init`: slot `i` of each field copied so far holds `source`'s
   * value, and every other element is as it was.
   */
  ghost predicate Written(now: map<string, seq<Value>>, init: map<string, seq<Value>>, source: Rec, gs: OMap, i: int, k: int)
  {
    now.Keys == init.Keys &&
    (forall f :: f in now ==> |now[f]| == |init[f]|) &&
    (forall f, j :: f in now && 0 <= j < |now[f]| && (j != i || f !in Done(gs, k)) ==> now[f][j] == init[f][j]) &&
    (forall f :: f in Done(gs, k) ==> f in now && f in source && 0 <= i < |now[f]| && now[f][i] == source[f])
  }

  /** A cursor at slot `j` of the arrays `init` reads `source`. */
  ghost predicate ReadsFrom(init: map<string, seq<Value>>, source: Rec, j: int)
  {
    forall f :: f in source ==> f in init && 0 <= j < |init[f]| && source[f] == init[f][j]
  }

  /** Writing `source`'s value of getter `k` into slot `i` takes `Written` one statement further. */
  lemma WrittenStep(now: map<string, seq<Value>>, init: map<string, seq<Value>>, source: Rec, gs: OMap, i: int, k: int, v: Value)
    requires Written(now, init, source, gs, i, k)
    requires DistinctKeys(gs) && 0 <= k < |gs| && gs[k].0 in now && 0 <= i < |now[gs[k].0]|
    requires gs[k].0 in source && v == source[gs[k].0]
    ensures Written(now[gs[k].0 := now[gs[k].0][i := v]], init, source, gs, i, k + 1)
  {
    DoneTodoStep(gs, k);
  }

  lemma AllDone(gs: OMap)
    ensures Done(gs, |gs|) == KeySet(gs)
  {
  }

  /** The generated field initializers: `f = new T[__l];` for every field, in field order. */
  method AllocateColumns(s: Schema, n: nat) returns (m: map<string, array<Value>>)
    ensures m.Keys == KeySet(s.fields)
    ensures forall f :: f in m ==> fresh(m[f]) && m[f].Length == n
    ensures forall f, i :: f in m && 0 <= i < n ==> m[f][i] == Default(TypeOf(s, f))
    ensures forall f, g :: f in m && g in m && f != g ==> m[f] != m[g]
  {
    m := map[];
    var k := 0;
    while k < |s.fields|
      invariant 0 <= k <= |s.fields|
      invariant m.Keys == set j | 0 <= j < k :: s.fields[j].0
      invariant forall f :: f in m ==> fresh(m[f]) && m[f].Length == n
      invariant forall f, i :: f in m && 0 <= i < n ==> m[f][i] == Default(TypeOf(s, f))
      invariant forall f, g :: f in m && g in m && f != g ==> m[f] != m[g]
    {
      var f := s.fields[k].0;
      var column := new Value[n](_ => Default(TypeOf(s, f)));
      assert (set j | 0 <= j < k + 1 :: s.fields[j].0) == (set j | 0 <= j < k :: s.fields[j].0) + {f};
      m := m[f := column];
      k := k + 1;
    }
  }

  /** One more getter processed. */
  lemma DoneTodoStep(gs: OMap, k: int)
    requires DistinctKeys(gs) && 0 <= k < |gs|
    ensures Done(gs, k + 1) == Done(gs, k) + {gs[k].0}
    ensures Todo(gs, k) == Todo(gs, k + 1) + {gs[k].0}
    ensures gs[k].0 !in Done(gs, k) && gs[k].0 !in Todo(gs, k + 1)
  {
  }

  /**
   * Why `RecordArray.create` throws.  With no factory, `create` throws
   * `IllegalArgumentException`.  When the constructor rejects the dimensions,
   * the caller sees the `RuntimeException` of `RecordArrayFactory.create`.
   * That exception wraps the reflective call's `InvocationTargetException`,
   * which wraps the generated factory's `IllegalStateException`, which in
   * turn wraps the constructor's `IllegalArgumentException`.
   */
  datatype CreateError =
    | UnsupportedRecordClass(recordClass: string)
    | FailedToCreate(recordClass: string, cause: DimError)

  /**
   * `RecordArray.create(recordClass, dimensions)`.  `factories` is the table
   * the generated `RecordArrayFactoryImpl` fills, one schema per `@Record`
   * interface.  A class without an entry makes the factory return `null`,
   * which `create` turns into an exception; otherwise the generated
   * constructor checks the dimensions and allocates the arrays.
   */
  method Create(factories: map<string, Schema>, recordClass: string, dimensions: seq<JInt>)
    returns (r: Result<RecordArrayImpl, CreateError>)
    requires forall c :: c in factories ==> SchemaValid(factories[c])
    ensures recordClass !in factories ==> r == Err(UnsupportedRecordClass(recordClass))
    ensures recordClass in factories && CheckDimensions(dimensions).Err? ==>
              r == Err(FailedToCreate(recordClass, CheckDimensions(dimensions).error))
    ensures r.Ok? <==> recordClass in factories && CheckDimensions(dimensions).Ok?
    ensures r.Ok? ==> fresh(r.value) && fresh(r.value.Repr) && r.value.Valid() &&
                      r.value.schema == factories[recordClass] &&
                      r.value.dims == CheckDimensions(dimensions).value &&
                      r.value.Size() == Product(dimensions) &&
                      forall i :: 0 <= i < Volume(r.value.dims) ==> r.value.Slot(i) == Blank(r.value.schema)
  {
    if recordClass !in factories {
      return Err(UnsupportedRecordClass(recordClass));
    }
    match CheckDimensions(dimensions)
    case Err(e) =>
      r := Err(FailedToCreate(recordClass, e));
    case Ok(d) =>
      var a := new RecordArrayImpl(factories[recordClass], d);
      r := Ok(a);
  }

  class Cursor {
    const owner: RecordArrayImpl
    const index: JInt

    constructor (owner: RecordArrayImpl, index: JInt)
      ensures this.owner == owner && this.index == index
    {
      this.owner := owner;
      this.index := index;
    }

    /** The index addresses a slot (the JVM's bounds check on every access). */
    ghost predicate InBounds()
    {
      owner.Valid() && 0 <= index < Volume(owner.dims)
    }

    /** A getter: `return f[__index];`. */
    function Get(f: string): Value
      reads owner.Repr
      requires InBounds() && f in owner.columns
    {
      owner.columns[f][index]
    }

    /** A setter: `Impl.this.f[__index] = value;`.  Nothing else changes. */
    method SetField(f: string, v: Value)
      requires InBounds() && f in owner.schema.setterFields
      modifies owner.Repr
      ensures owner.Slot(index) == old(owner.Slot(index))[f := v]
      ensures forall j :: 0 <= j < Volume(owner.dims) && j != index ==> owner.Slot(j) == old(owner.Slot(j))
    {
      owner.columns[f][index] := v;
    }

    /** `copy()`: `new $$DetachedRecord(this)`. */
    method Copy() returns (d: Detached)
      requires InBounds() && owner.schema.hasCopy
      ensures fresh(d) && d.schema == owner.schema
      ensures d.values == SnapshotOf(owner.schema, Observed(View(this), owner.schema))
    {
      d := new Detached(owner.schema, GettersOf(View(this), owner.schema));
    }
  }

  class Detached {
    const schema: Schema
    /** The generated `private T f;` fields, by field name. */
    var values: Rec

    /** `$$DetachedRecord(other)`: `this.f = other.getF();` for every getter field. */
    constructor (s: Schema, other: Rec)
      requires SchemaValid(s) && KeySet(s.getters) <= other.Keys
      ensures schema == s && values == SnapshotOf(s, other)
    {
      schema := s;
      values := SnapshotOf(s, other);
    }

    /** A setter: `this.f = value;`. */
    method SetField(f: string, v: Value)
      requires f in schema.setterFields && f in values
      modifies this
      ensures values == old(values)[f := v]
    {
      values := values[f := v];
    }

    /** `copy()`: a new detached record with this one's getter values. */
    method Copy() returns (d: Detached)
      requires SchemaValid(schema) && schema.hasCopy && KeySet(schema.getters) <= values.Keys
      ensures fresh(d) && d.schema == schema
      ensures d.values == SnapshotOf(schema, values)
    {
      d := new Detached(schema, values);
    }
  }

  /** Every field at its Java default: what a fresh container holds in each slot. */
  function Blank(s: Schema): (r: Rec)
    ensures r.Keys == KeySet(s.fields)
  {
    map f | f in KeySet(s.fields) :: Default(TypeOf(s, f))
  }

  /**
   * A detached record's fields after construction from `other`: getter fields
   * copied, the other fields left at the Java default.
   */
  function SnapshotOf(s: Schema, other: Rec): (r: Rec)
    requires KeySet(s.getters) <= other.Keys
    ensures r.Keys == KeySet(s.fields)
  {
    map f | f in KeySet(s.fields) :: if f in KeySet(s.getters) then other[f] else Default(TypeOf(s, f))
  }

  /** An object implementing the record interface. */
  datatype Record =
    | View(c: Cursor)          // a cursor returned by `get`
    | Snapshot(d: Detached)    // a detached copy returned by `copy()`
    | Foreign(values: Rec)     // any other implementation, by what its getters return

  ghost function RecordReads(r: Record): set<object>
  {
    if r.View? then r.c.owner.Repr
    else if r.Snapshot? then {r.d}
    else {}
  }

  /** The record is of the interface `s` was extracted from, and every getter can be called. */
  ghost predicate Conforms(r: Record, s: Schema)
    reads RecordReads(r)
  {
    if r.View? then r.c.owner.schema == s && r.c.InBounds()
    else if r.Snapshot? then r.d.schema == s && KeySet(s.getters) <= r.d.values.Keys
    else KeySet(s.getters) <= r.values.Keys
  }

  /** A cursor into another container shares no storage with `a`. */
  ghost predicate Separate(r: Record, a: RecordArrayImpl)
  {
    r.View? && r.c.owner != a ==> r.c.owner.Repr !! a.Repr
  }

  ghost predicate Observable(r: Record, f: string)
    reads RecordReads(r)
  {
    if r.View? then r.c.InBounds() && f in r.c.owner.columns
    else if r.Snapshot? then f in r.d.values
    else f in r.values
  }

  /** What the getter of field `f` returns. */
  function Observe(r: Record, f: string): Value
    reads RecordReads(r)
    requires Observable(r, f)
  {
    if r.View? then r.c.Get(f)
    else if r.Snapshot? then r.d.values[f]
    else r.values[f]
  }

  /** What the record's getters return, keyed by field. */
  ghost function Observed(r: Record, s: Schema): (o: Rec)
    reads RecordReads(r)
    requires SchemaValid(s) && Conforms(r, s)
    ensures o.Keys == KeySet(s.getters) && Covers(s.getters, o)
  {
    map f | f in KeySet(s.getters) :: Observe(r, f)
  }

  /** The compiled counterpart of `Observed`. */
  function GettersOf(r: Record, s: Schema): (o: Rec)
    reads RecordReads(r)
    requires SchemaValid(s) && Conforms(r, s)
    ensures o == Observed(r, s)
  {
    map f | f in KeySet(s.getters) :: Observe(r, f)
  }

  /** What the getters of a record holding `a` return: `a` restricted to the getter fields. */
  function GetterValues(s: Schema, a: Rec): (o: Rec)
    requires KeySet(s.getters) <= a.Keys
    ensures o.Keys == KeySet(s.getters) && Covers(s.getters, o)
  {
    map f | f in KeySet(s.getters) :: a[f]
  }

  /** A cursor's getters return its slot's getter fields. */
  lemma ObservedView(c: Cursor)
    requires c.InBounds()
    ensures Conforms(View(c), c.owner.schema)
    ensures Observed(View(c), c.owner.schema) == GetterValues(c.owner.schema, c.owner.Slot(c.index))
  {
  }

  /** A detached record's getters return its own getter fields. */
  lemma ObservedSnapshot(d: Detached)
    requires SchemaValid(d.schema) && KeySet(d.schema.getters) <= d.values.Keys
    ensures Conforms(Snapshot(d), d.schema)
    ensures Observed(Snapshot(d), d.schema) == GetterValues(d.schema, d.values)
  {
  }

  /** Another implementation's getters return the values it holds. */
  lemma ObservedForeign(s: Schema, values: Rec)
    requires SchemaValid(s) && KeySet(s.getters) <= values.Keys
    ensures Conforms(Foreign(values), s)
    ensures Observed(Foreign(values), s) == GetterValues(s, values)
  {
  }

  /** `base` with the entries of `top` written over it. */
  function Overlay(base: Rec, top: Rec): Rec
  {
    map f | f in base.Keys + top.Keys :: if f in top then top[f] else base[f]
  }

  function Done(gs: OMap, k: int): set<string>
  {
    set j | 0 <= j < k && j < |gs| :: gs[j].0
  }

  function Todo(gs: OMap, k: int): set<string>
  {
    set j | 0 <= j < |gs| && k <= j :: gs[j].0
  }

  // ---------------------------------------------------------------------------
  // equals and hashCode of the generated record classes

  /** The argument of `equals(Object o)`. */
  datatype Arg = AsRecord(r: Record) | NotARecordObject

  /** `this == o`. */
  predicate Same(r: Record, o: Arg)
  {
    o.AsRecord? &&
    ((r.View? && o.r.View? && r.c == o.r.c) || (r.Snapshot? && o.r.Snapshot? && r.d == o.r.d))
  }

  /** `r.equals(o)` for a cursor or a detached record `r` of schema `s`. */
  ghost function RecordEquals(ops: RefOps, s: Schema, r: Record, o: Arg): bool
    reads RecordReads(r), (if o.AsRecord? then RecordReads(o.r) else {})
    requires !r.Foreign? && SchemaValid(s) && Conforms(r, s)
    requires o.AsRecord? ==> Conforms(o.r, s)
  {
    var other :=
      if Same(r, o) then SameInstance
      else if o.NotARecordObject? then NotARecord
      else OtherRecord(Observed(o.r, s));
    Equals(ops, s, Observed(r, s), other)
  }

  /**
   * Two records whose getters return the same values are `equals`, whatever
   * their classes, and (when `o` is generated too) have the same `hashCode()`.
   */
  lemma EqualWhenSameGetters(ops: RefOps, s: Schema, r: Record, o: Record)
    requires !r.Foreign? && SchemaValid(s) && Conforms(r, s) && Conforms(o, s)
    requires Observed(r, s) == Observed(o, s)
    ensures RecordEquals(ops, s, r, AsRecord(o))
    ensures !o.Foreign? ==> RecordHashCode(ops, s, r) == RecordHashCode(ops, s, o)
  {
    EqualsReflexive(ops, s, Observed(r, s));
  }

  /**
   * A record, other than `r` itself, whose getters return `r`'s values except
   * for one getter field holding a value that compares unequal and hashes
   * differently, is not `equals` to `r` and has another `hashCode()`.
   */
  lemma UnequalWhenOneGetterDiffers(ops: RefOps, s: Schema, r: Record, o: Record, k: int, v: Value)
    requires !r.Foreign? && !o.Foreign? && SchemaValid(s) && Conforms(r, s) && Conforms(o, s)
    requires !Same(r, AsRecord(o)) && 0 <= k < |s.getters|
    requires Observed(o, s) == Observed(r, s)[s.getters[k].0 := v]
    requires !FieldEquals(ops, TypeOf(s, s.getters[k].0), Observed(r, s)[s.getters[k].0], v)
    requires FieldHash(ops, TypeOf(s, s.getters[k].0), v) != FieldHash(ops, TypeOf(s, s.getters[k].0), Observed(r, s)[s.getters[k].0])
    ensures !RecordEquals(ops, s, r, AsRecord(o))
    ensures RecordHashCode(ops, s, r) != RecordHashCode(ops, s, o)
  {
    FieldChangesEquals(ops, s, Observed(r, s), k, v);
    FieldChangesHash(ops, s, Observed(r, s), k, v);
  }

  /** `r.hashCode()` for a cursor or a detached record `r` of schema `s`. */
  ghost function RecordHashCode(ops: RefOps, s: Schema, r: Record): Option<JInt>
    reads RecordReads(r)
    requires !r.Foreign? && SchemaValid(s) && Conforms(r, s)
  {
    HashCode(ops, s, Observed(r, s))
  }
}
