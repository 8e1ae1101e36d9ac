/**
 * The behaviour the repository's tests rely on, stated over the model:
 * the `SimpleRecord` interface and what extraction makes of it, and the
 * client sequences of the quirk and copy tests run against any container.
 */
module Scenarios {
  import opened Wrappers
  import opened OrderedMap
  import opened JavaValues
  import opened Schema
  import opened EqualsHash
  import opened Flatten
  import opened Container

  // ---------------------------------------------------------------------------
  // SimpleRecord

  const SimpleRecordType := "com.aivean.testrecarr.SimpleRecord"

  function Method(name: string, params: seq<string>, returnType: string): Member
  {
    Member(MethodElement, name, params, returnType, false)
  }

  /** `SimpleRecord`'s members in declaration order, the `default` method last. */
  function SimpleRecordDeclaration(): Declaration
  {
    Declaration(true, SimpleRecordType, [
      Method("getName", [], "java.lang.String"),
      Method("setName", ["java.lang.String"], "void"),
      Method("getAge", [], "int"),
      Method("setAge", ["int"], "void"),
      Method("isMale", [], "boolean"),
      Method("setMale", ["boolean"], "void"),
      Method("copy", [], SimpleRecordType),
      Member(MethodElement, "getNameAndAge", [], "java.lang.String", true)
    ])
  }

  function SimpleRecordSchema(): Schema
  {
    Schema(SimpleRecordType,
           [("Name", "java.lang.String"), ("Age", "int"), ("Male", "boolean")],
           [("Name", "getName"), ("Age", "getAge"), ("Male", "isMale")],
           {"Name", "Age", "Male"},
           true)
  }

  /**
   * A bean property of a record interface: a getter named `get<F>` or
   * `is<F>` returning `typ`, followed by its setter `set<F>(typ)`.
   */
  datatype Property = Property(prefix: string, field: string, typ: string)

  predicate Named(p: Property)
  {
    (p.prefix == "get" || p.prefix == "is") && p.field != ""
  }

  /** The getter and setter of each property, in declaration order. */
  function PairMembers(ps: seq<Property>): seq<Member>
  {
    if ps == [] then []
    else [Method(ps[0].prefix + ps[0].field, [], ps[0].typ), Method("set" + ps[0].field, [ps[0].typ], "void")]
         + PairMembers(ps[1..])
  }

  function PropertyTypes(ps: seq<Property>): OMap
  {
    if ps == [] then [] else [(ps[0].field, ps[0].typ)] + PropertyTypes(ps[1..])
  }

  function PropertyGetters(ps: seq<Property>): OMap
  {
    if ps == [] then [] else [(ps[0].field, ps[0].prefix + ps[0].field)] + PropertyGetters(ps[1..])
  }

  function PropertyNames(ps: seq<Property>): set<string>
  {
    set i | 0 <= i < |ps| :: ps[i].field
  }

  /**
   * Getter/setter pairs of distinct new fields extend both ordered maps in
   * declaration order and mark every field as settable.
   */
  lemma {:induction false} PairsFold(rt: string, s: Schema, ps: seq<Property>, rest: seq<Member>)
    requires forall i :: 0 <= i < |ps| ==> Named(ps[i])
    requires forall i, j :: 0 <= i < j < |ps| ==> ps[i].field != ps[j].field
    requires forall i :: 0 <= i < |ps| ==> ps[i].field !in KeySet(s.fields) && ps[i].field !in KeySet(s.getters)
    ensures Fold(rt, s, PairMembers(ps) + rest) ==
            Fold(rt, s.(fields := s.fields + PropertyTypes(ps), getters := s.getters + PropertyGetters(ps),
                        setterFields := s.setterFields + PropertyNames(ps)), rest)
    decreases ps
  {
    if ps == [] {
      assert PairMembers(ps) + rest == rest;
      assert PropertyTypes(ps) == [] && PropertyGetters(ps) == [] && PropertyNames(ps) == {};
      assert s.(fields := s.fields + [], getters := s.getters + [], setterFields := s.setterFields + {}) == s;
    } else {
      var p := ps[0];
      var tail := PairMembers(ps[1..]) + rest;
      PairMembersCons(ps, rest);
      PairFold(rt, s, p, tail);
      PairFresh(s, ps);
      PairsFold(rt, AfterPair(s, p), ps[1..], rest);
      AfterPairs(s, ps);
    }
  }

  lemma PairMembersCons(ps: seq<Property>, rest: seq<Member>)
    requires ps != []
    ensures PairMembers(ps) + rest == PairMembers([ps[0]]) + (PairMembers(ps[1..]) + rest)
  {
    assert [ps[0]][1..] == [];
  }

  /** The remaining properties' fields are still new after the first pair. */
  lemma PairFresh(s: Schema, ps: seq<Property>)
    requires ps != []
    requires forall i, j :: 0 <= i < j < |ps| ==> ps[i].field != ps[j].field
    requires forall i :: 0 <= i < |ps| ==> ps[i].field !in KeySet(s.fields) && ps[i].field !in KeySet(s.getters)
    ensures forall i :: 0 <= i < |ps[1..]| ==>
              ps[1..][i].field !in KeySet(AfterPair(s, ps[0]).fields) && ps[1..][i].field !in KeySet(AfterPair(s, ps[0]).getters)
  {
    var p := ps[0];
    AppendKeySet(s.fields, p.field, p.typ);
    AppendKeySet(s.getters, p.field, p.prefix + p.field);
    forall i | 0 <= i < |ps[1..]| ensures ps[1..][i].field != p.field {
      assert ps[1..][i] == ps[i + 1];
    }
  }

  lemma AppendAssoc<T>(a: seq<T>, b: seq<T>, c: seq<T>)
    ensures (a + b) + c == a + (b + c)
  {
  }

  lemma AfterPairs(s: Schema, ps: seq<Property>)
    requires ps != []
    ensures AfterPair(s, ps[0]).(fields := AfterPair(s, ps[0]).fields + PropertyTypes(ps[1..]),
                                 getters := AfterPair(s, ps[0]).getters + PropertyGetters(ps[1..]),
                                 setterFields := AfterPair(s, ps[0]).setterFields + PropertyNames(ps[1..]))
            == s.(fields := s.fields + PropertyTypes(ps), getters := s.getters + PropertyGetters(ps),
                  setterFields := s.setterFields + PropertyNames(ps))
  {
    var p := ps[0];
    assert PropertyTypes(ps) == [(p.field, p.typ)] + PropertyTypes(ps[1..]);
    assert PropertyGetters(ps) == [(p.field, p.prefix + p.field)] + PropertyGetters(ps[1..]);
    AppendAssoc(s.fields, [(p.field, p.typ)], PropertyTypes(ps[1..]));
    AppendAssoc(s.getters, [(p.field, p.prefix + p.field)], PropertyGetters(ps[1..]));
    PropertyNamesCons(ps);
  }

  /** The schema after one property's getter and setter. */
  function AfterPair(s: Schema, p: Property): Schema
  {
    s.(fields := s.fields + [(p.field, p.typ)], getters := s.getters + [(p.field, p.prefix + p.field)],
       setterFields := s.setterFields + {p.field})
  }

  lemma PairFold(rt: string, s: Schema, p: Property, tail: seq<Member>)
    requires Named(p) && p.field !in KeySet(s.fields) && p.field !in KeySet(s.getters)
    ensures Fold(rt, s, PairMembers([p]) + tail) == Fold(rt, AfterPair(s, p), tail)
  {
    var g := Method(p.prefix + p.field, [], p.typ);
    var st := Method("set" + p.field, [p.typ], "void");
    assert [p][1..] == [];
    assert PairMembers([p]) + tail == [g] + ([st] + tail);
    var s1 := s.(fields := s.fields + [(p.field, p.typ)], getters := s.getters + [(p.field, p.prefix + p.field)]);
    GetterFold(rt, s, p, [st] + tail, s1);
    PutAbsent(s.fields, p.field, p.typ);
    PutGet(s.fields, p.field, p.typ);
    SetterFold(rt, s1, p, tail);
  }

  lemma GetterFold(rt: string, s: Schema, p: Property, tail: seq<Member>, s1: Schema)
    requires Named(p) && p.field !in KeySet(s.fields) && p.field !in KeySet(s.getters)
    requires s1 == s.(fields := s.fields + [(p.field, p.typ)], getters := s.getters + [(p.field, p.prefix + p.field)])
    ensures Fold(rt, s, [Method(p.prefix + p.field, [], p.typ)] + tail) == Fold(rt, s1, tail)
  {
    GetterStep(rt, s, p.prefix, p.field, p.typ);
    FoldCons(rt, s, [Method(p.prefix + p.field, [], p.typ)] + tail, s1);
    assert ([Method(p.prefix + p.field, [], p.typ)] + tail)[1..] == tail;
  }

  lemma SetterFold(rt: string, s1: Schema, p: Property, tail: seq<Member>)
    requires Named(p) && Get(s1.fields, p.field) == Some(p.typ)
    ensures Fold(rt, s1, [Method("set" + p.field, [p.typ], "void")] + tail) ==
            Fold(rt, s1.(setterFields := s1.setterFields + {p.field}), tail)
  {
    SetterStep(rt, s1, p.field, p.typ);
    FoldCons(rt, s1, [Method("set" + p.field, [p.typ], "void")] + tail, s1.(setterFields := s1.setterFields + {p.field}));
    assert ([Method("set" + p.field, [p.typ], "void")] + tail)[1..] == tail;
  }

  lemma PropertyNamesCons(ps: seq<Property>)
    requires ps != []
    ensures PropertyNames(ps) == {ps[0].field} + PropertyNames(ps[1..])
  {
    forall x | x in PropertyNames(ps) ensures x in {ps[0].field} + PropertyNames(ps[1..]) {
      var i :| 0 <= i < |ps| && ps[i].field == x;
      if i > 0 { assert ps[1..][i - 1].field == x; }
    }
    forall x | x in PropertyNames(ps[1..]) ensures x in PropertyNames(ps) {
      var i :| 0 <= i < |ps[1..]| && ps[1..][i].field == x;
      assert ps[i + 1].field == x;
    }
  }

  lemma AppendKeySet(m: OMap, k: string, v: string)
    ensures KeySet(m + [(k, v)]) == KeySet(m) + {k}
  {
    var m' := m + [(k, v)];
    forall x | x in KeySet(m') ensures x in KeySet(m) + {k} {
      var i :| 0 <= i < |m'| && m'[i].0 == x;
      if i < |m| { assert m[i].0 == x; }
    }
    forall x | x in KeySet(m) ensures x in KeySet(m') {
      var i :| 0 <= i < |m| && m[i].0 == x;
      assert m'[i].0 == x;
    }
    assert m'[|m|].0 == k;
  }

  /** `SimpleRecord`'s three properties. */
  function SimpleRecordProperties(): seq<Property>
  {
    [Property("get", "Name", "java.lang.String"), Property("get", "Age", "int"), Property("is", "Male", "boolean")]
  }

  /**
   * Extraction gives `SimpleRecord` three fields in getter order, all with
   * setters, and a `copy` method; the `default` method is no field.
   */
  lemma SimpleRecordExtracted()
    ensures Extract(SimpleRecordDeclaration()) == Ok(SimpleRecordSchema())
  {
    var rt := SimpleRecordType;
    var ps := SimpleRecordProperties();
    var rest := Trailer();
    DeclarationShape();
    SimplePropertiesFresh();
    InitialPairsFold(rt, ps, rest);
    TrailerFold(rt, PropertiesSchema(rt, ps));
    SchemaShape();
  }

  /** The record type's `copy()` and its `default` method, after the properties. */
  function Trailer(): seq<Member>
  {
    [Method("copy", [], SimpleRecordType), Member(MethodElement, "getNameAndAge", [], "java.lang.String", true)]
  }

  function PropertiesSchema(rt: string, ps: seq<Property>): Schema
  {
    Initial(rt).(fields := PropertyTypes(ps), getters := PropertyGetters(ps), setterFields := PropertyNames(ps))
  }

  /** Getter/setter pairs at the head of a declaration build the schema of their properties. */
  lemma InitialPairsFold(rt: string, ps: seq<Property>, rest: seq<Member>)
    requires forall i :: 0 <= i < |ps| ==> Named(ps[i])
    requires forall i, j :: 0 <= i < j < |ps| ==> ps[i].field != ps[j].field
    requires forall i :: 0 <= i < |ps| ==> ps[i].field !in KeySet(Initial(rt).fields) && ps[i].field !in KeySet(Initial(rt).getters)
    ensures Fold(rt, Initial(rt), PairMembers(ps) + rest) == Fold(rt, PropertiesSchema(rt, ps), rest)
  {
    PairsFold(rt, Initial(rt), ps, rest);
    assert Initial(rt).(fields := [] + PropertyTypes(ps), getters := [] + PropertyGetters(ps),
                        setterFields := {} + PropertyNames(ps)) == PropertiesSchema(rt, ps);
  }

  lemma TrailerFold(rt: string, s: Schema)
    requires rt == SimpleRecordType
    ensures Fold(rt, s, Trailer()) == Ok(s.(hasCopy := true))
  {
    var rest := Trailer();
    CopyStep(rt, s);
    FoldCons(rt, s, rest, s.(hasCopy := true));
    FoldCons(rt, s.(hasCopy := true), rest[1..], s.(hasCopy := true));
    assert rest[1..][1..] == [];
  }

  lemma SimplePropertiesFresh()
    ensures forall i :: 0 <= i < |SimpleRecordProperties()| ==> Named(SimpleRecordProperties()[i])
    ensures forall i, j :: 0 <= i < j < |SimpleRecordProperties()| ==>
              SimpleRecordProperties()[i].field != SimpleRecordProperties()[j].field
    ensures forall i :: 0 <= i < |SimpleRecordProperties()| ==>
              SimpleRecordProperties()[i].field !in KeySet(Initial(SimpleRecordType).fields) &&
              SimpleRecordProperties()[i].field !in KeySet(Initial(SimpleRecordType).getters)
  {
  }

  lemma DeclarationShape()
    ensures SimpleRecordDeclaration().members ==
            PairMembers(SimpleRecordProperties()) + Trailer()
  {
    var ps := SimpleRecordProperties();
    assert "getName" == "get" + "Name" && "setName" == "set" + "Name";
    assert "getAge" == "get" + "Age" && "setAge" == "set" + "Age";
    assert "isMale" == "is" + "Male" && "setMale" == "set" + "Male";
    assert PairMembers(ps[2..]) == [Method("isMale", [], "boolean"), Method("setMale", ["boolean"], "void")];
    assert PairMembers(ps[1..]) == [Method("getAge", [], "int"), Method("setAge", ["int"], "void")] + PairMembers(ps[2..]);
  }

  lemma SchemaShape()
    ensures PropertiesSchema(SimpleRecordType, SimpleRecordProperties()).(hasCopy := true) == SimpleRecordSchema()
  {
    var ps := SimpleRecordProperties();
    assert "getName" == "get" + "Name" && "getAge" == "get" + "Age" && "isMale" == "is" + "Male";
    assert PropertyNames(ps) == {"Name", "Age", "Male"} by {
      assert ps[0].field == "Name" && ps[1].field == "Age" && ps[2].field == "Male";
    }
  }

  /** How the accessor names of the form `get<F>`, `is<F>` and `set<F>` are read. */
  lemma GetName(f: string)
    ensures HasPrefix("get" + f, "get") && FieldOf("get" + f) == f
  {
    assert ("get" + f)[..3] == "get" && ("get" + f)[3..] == f;
  }

  lemma IsName(f: string)
    ensures HasPrefix("is" + f, "is") && FieldOf("is" + f) == f
  {
    assert ("is" + f)[..2] == "is" && ("is" + f)[2..] == f;
    assert ("is" + f)[0] == 'i' && "get"[0] == 'g';
    assert !HasPrefix("is" + f, "get");
  }

  lemma SetName(f: string)
    ensures HasPrefix("set" + f, "set") && !HasPrefix("set" + f, "get") && !HasPrefix("set" + f, "is")
    ensures FieldOf("set" + f) == f
  {
    assert ("set" + f)[..3] == "set" && ("set" + f)[3..] == f;
    assert ("set" + f)[0] == 's' && "get"[0] == 'g' && "is"[0] == 'i';
    assert !HasPrefix("set" + f, "get") && !HasPrefix("set" + f, "is");
  }

  /** A getter of a new field appends it to both maps. */
  lemma GetterStep(rt: string, s: Schema, prefix: string, f: string, t: string)
    requires prefix == "get" || prefix == "is"
    requires f != "" && f !in KeySet(s.fields) && f !in KeySet(s.getters)
    ensures Step(rt, s, Method(prefix + f, [], t)) ==
            Ok(s.(fields := s.fields + [(f, t)], getters := s.getters + [(f, prefix + f)]))
  {
    if prefix == "get" { GetName(f); } else { IsName(f); }
    PutAbsent(s.fields, f, t);
    PutAbsent(s.getters, f, prefix + f);
  }

  /** The setter of a field its getter already typed adds it to the setter fields. */
  lemma SetterStep(rt: string, s: Schema, f: string, t: string)
    requires f != "" && Get(s.fields, f) == Some(t)
    ensures Step(rt, s, Method("set" + f, [t], "void")) == Ok(s.(setterFields := s.setterFields + {f}))
  {
    SetName(f);
    PutPresent(s.fields, f, t);
  }

  lemma CopyStep(rt: string, s: Schema)
    ensures Step(rt, s, Method("copy", [], rt)) == Ok(s.(hasCopy := true))
  {
    NameClasses("copy");
  }

  /** A successful first step hands the rest of the fold to the next state. */
  lemma FoldCons(rt: string, s: Schema, ms: seq<Member>, s': Schema)
    requires |ms| > 0 && Step(rt, s, ms[0]) == Ok(s')
    ensures Fold(rt, s, ms) == Fold(rt, s', ms[1..])
  {
  }

  // ---------------------------------------------------------------------------
  // Client sequences against a container

  /** Writing a record's getter values over a slot, then reading the getters back, gives those values. */
  lemma OverlayGetters(s: Schema, base: Rec, x: Rec)
    requires KeySet(s.getters) <= x.Keys
    ensures KeySet(s.getters) <= Overlay(base, GetterValues(s, x)).Keys
    ensures GetterValues(s, Overlay(base, GetterValues(s, x))) == GetterValues(s, x)
  {
  }

  /** A detached copy's getters return what the copied record's getters returned. */
  lemma SnapshotGetters(s: Schema, x: Rec)
    requires SchemaValid(s) && KeySet(s.getters) <= x.Keys
    ensures KeySet(s.getters) <= SnapshotOf(s, x).Keys
    ensures GetterValues(s, SnapshotOf(s, x)) == GetterValues(s, x)
  {
  }

  /**
   * Two `get(i)` calls give two distinct cursors that are `equals` and have
   * the same `hashCode()`.
   */
  method IdentityAbsence(ops: RefOps, a: RecordArrayImpl, i: JInt) returns (c1: Cursor, c2: Cursor)
    requires a.Valid() && 0 <= i < Volume(a.dims)
    ensures c1 != c2 && c1.InBounds() && c2.InBounds() && c1.owner == a && c2.owner == a
    ensures RecordEquals(ops, a.schema, View(c1), AsRecord(View(c2)))
    ensures RecordHashCode(ops, a.schema, View(c1)) == RecordHashCode(ops, a.schema, View(c2))
  {
    c1 := a.Get(i);
    c2 := a.Get(i);
    ObservedView(c1);
    ObservedView(c2);
    EqualWhenSameGetters(ops, a.schema, View(c1), View(c2));
  }

  /**
   * The swap idiom through cursors: `tmp = get(i); set(i, get(j)); set(j, tmp)`.
   * `tmp` sees the first `set`, so both slots end up with slot `j`'s values
   * and all three records compare equal.
   */
  method SwapThroughView(ops: RefOps, a: RecordArrayImpl, i: JInt, j: JInt) returns (tmp: Cursor, cj: Cursor)
    requires a.Valid() && 0 <= i < Volume(a.dims) && 0 <= j < Volume(a.dims) && i != j
    modifies a.Repr
    ensures a.Valid() && tmp.InBounds() && cj.InBounds() && tmp.owner == a && cj.owner == a
    ensures GetterValues(a.schema, a.Slot(i)) == GetterValues(a.schema, old(a.Slot(j)))
    ensures GetterValues(a.schema, a.Slot(j)) == GetterValues(a.schema, old(a.Slot(j)))
    ensures RecordEquals(ops, a.schema, View(tmp), AsRecord(View(cj)))
  {
    var s := a.schema;
    ghost var before := a.Slot(j);
    tmp := a.Get(i);
    cj := a.Get(j);
    ObservedView(cj);
    a.Set(i, View(cj));
    OverlayGetters(s, old(a.Slot(i)), before);
    ObservedView(tmp);
    ghost var mid := a.Slot(j);
    a.Set(j, View(tmp));
    OverlayGetters(s, mid, before);
    ObservedView(tmp);
    ObservedView(cj);
    EqualWhenSameGetters(ops, s, View(tmp), View(cj));
  }

  /**
   * The swap idiom with `tmp = get(i).copy()`: the detached copy keeps slot
   * `i`'s old values, and the getter fields of the two slots are exchanged.
   */
  method SwapThroughCopy(a: RecordArrayImpl, i: JInt, j: JInt)
    requires a.Valid() && a.schema.hasCopy && 0 <= i < Volume(a.dims) && 0 <= j < Volume(a.dims) && i != j
    modifies a.Repr
    ensures a.Valid()
    ensures GetterValues(a.schema, a.Slot(i)) == GetterValues(a.schema, old(a.Slot(j)))
    ensures GetterValues(a.schema, a.Slot(j)) == GetterValues(a.schema, old(a.Slot(i)))
  {
    ghost var slotI, slotJ := a.Slot(i), a.Slot(j);
    var tmp := CopyOut(a, i);
    ghost var kept := tmp.values;
    SetFromSlot(a, j, i);
    assert tmp.values == kept && a.Slot(j) == slotJ;
    OverlayGetters(a.schema, slotI, slotJ);
    ghost var afterFirst := a.Slot(i);
    ObservedSnapshot(tmp);
    a.Set(j, Snapshot(tmp));
    assert a.Slot(i) == afterFirst;
    OverlayGetters(a.schema, slotJ, slotI);
  }

  /** `get(i).copy()`: a detached record whose getters return slot `i`'s getter values. */
  method CopyOut(a: RecordArrayImpl, i: JInt) returns (d: Detached)
    requires a.Valid() && a.schema.hasCopy && 0 <= i < Volume(a.dims)
    ensures fresh(d) && d.schema == a.schema
    ensures KeySet(a.schema.getters) <= d.values.Keys
    ensures GetterValues(a.schema, d.values) == GetterValues(a.schema, a.Slot(i))
  {
    var c := a.Get(i);
    d := c.Copy();
    assert unchanged(a.Repr);
    CopyGetters(c, d);
  }

  lemma CopyGetters(c: Cursor, d: Detached)
    requires c.InBounds() && d.schema == c.owner.schema
    requires d.values == SnapshotOf(d.schema, Observed(View(c), d.schema))
    ensures KeySet(d.schema.getters) <= d.values.Keys
    ensures GetterValues(d.schema, d.values) == GetterValues(d.schema, c.owner.Slot(c.index))
  {
    ObservedView(c);
    SnapshotGetters(d.schema, Observed(View(c), d.schema));
  }

  /**
   * `set(j, get(i))` for `i != j`: slot `j` takes slot `i`'s getter values,
   * slot `i` is untouched, and the two cursors compare equal.
   */
  method Assign(ops: RefOps, a: RecordArrayImpl, i: JInt, j: JInt) returns (ci: Cursor, cj: Cursor)
    requires a.Valid() && 0 <= i < Volume(a.dims) && 0 <= j < Volume(a.dims) && i != j
    modifies a.Repr
    ensures a.Valid() && ci.InBounds() && cj.InBounds() && ci.owner == a && cj.owner == a
    ensures a.Slot(i) == old(a.Slot(i))
    ensures a.Slot(j) == Overlay(old(a.Slot(j)), GetterValues(a.schema, old(a.Slot(i))))
    ensures RecordEquals(ops, a.schema, View(ci), AsRecord(View(cj)))
  {
    SetFromSlot(a, i, j);
    ci := a.Get(i);
    cj := a.Get(j);
    OverlayGetters(a.schema, old(a.Slot(j)), a.Slot(i));
    ObservedView(ci);
    ObservedView(cj);
    EqualWhenSameGetters(ops, a.schema, View(ci), View(cj));
  }

  /** `set(j, get(i))`: slot `j` takes slot `i`'s getter values; no other slot changes. */
  method SetFromSlot(a: RecordArrayImpl, i: JInt, j: JInt)
    requires a.Valid() && 0 <= i < Volume(a.dims) && 0 <= j < Volume(a.dims) && i != j
    modifies a.Repr
    ensures a.Valid()
    ensures a.Slot(j) == Overlay(old(a.Slot(j)), GetterValues(a.schema, old(a.Slot(i))))
    ensures forall n :: 0 <= n < Volume(a.dims) && n != j ==> a.Slot(n) == old(a.Slot(n))
  {
    var ci := a.Get(i);
    ObservedView(ci);
    a.Set(j, View(ci));
  }

  /**
   * `set(i, rec)` with a record of another class: only its getter values are
   * stored, and the cursor at `i` then `equals` it.
   */
  method SetFromForeign(ops: RefOps, a: RecordArrayImpl, i: JInt, rec: Rec) returns (c: Cursor)
    requires a.Valid() && 0 <= i < Volume(a.dims) && KeySet(a.schema.getters) <= rec.Keys
    modifies a.Repr
    ensures a.Valid() && c.InBounds() && c.owner == a
    ensures GetterValues(a.schema, a.Slot(i)) == GetterValues(a.schema, rec)
    ensures RecordEquals(ops, a.schema, View(c), AsRecord(Foreign(rec)))
  {
    ObservedForeign(a.schema, rec);
    a.Set(i, Foreign(rec));
    c := a.Get(i);
    OverlayGetters(a.schema, old(a.Slot(i)), rec);
    ObservedView(c);
    EqualWhenSameGetters(ops, a.schema, View(c), Foreign(rec));
  }

  /** `get(i).copy()` equals the cursor it came from and has its hash code. */
  method CopyEqualsSource(ops: RefOps, a: RecordArrayImpl, i: JInt) returns (c: Cursor, d: Detached)
    requires a.Valid() && a.schema.hasCopy && 0 <= i < Volume(a.dims)
    ensures c.InBounds() && c.owner == a && d.schema == a.schema && fresh(d)
    ensures d.values == SnapshotOf(a.schema, GetterValues(a.schema, a.Slot(i)))
    ensures d.values == SnapshotOf(a.schema, Observed(View(c), a.schema))
    ensures Conforms(Snapshot(d), a.schema)
    ensures RecordEquals(ops, a.schema, View(c), AsRecord(Snapshot(d)))
    ensures RecordHashCode(ops, a.schema, View(c)) == RecordHashCode(ops, a.schema, Snapshot(d))
  {
    c := a.Get(i);
    ObservedView(c);
    d := c.Copy();
    CopyEquals(ops, c, d);
  }

  lemma CopyEquals(ops: RefOps, c: Cursor, d: Detached)
    requires c.InBounds() && d.schema == c.owner.schema
    requires d.values == SnapshotOf(d.schema, GetterValues(d.schema, c.owner.Slot(c.index)))
    ensures Conforms(Snapshot(d), d.schema)
    ensures RecordEquals(ops, d.schema, View(c), AsRecord(Snapshot(d)))
    ensures RecordHashCode(ops, d.schema, View(c)) == RecordHashCode(ops, d.schema, Snapshot(d))
  {
    var s := d.schema;
    var g := GetterValues(s, c.owner.Slot(c.index));
    SnapshotGetters(s, g);
    ObservedSnapshot(d);
    ObservedView(c);
    assert GetterValues(s, g) == g;
    EqualWhenSameGetters(ops, s, View(c), Snapshot(d));
  }

  /**
   * Setting a getter field of a copy of `c` to a value that compares unequal
   * and hashes differently leaves the container as it was and makes the copy
   * differ from `c` in `equals` and in `hashCode()`.
   */
  method MutatedCopyDiffers(ops: RefOps, c: Cursor, d: Detached, k: int, v: Value)
    requires c.InBounds() && d.schema == c.owner.schema
    requires d.values == SnapshotOf(d.schema, Observed(View(c), d.schema))
    requires 0 <= k < |d.schema.getters| && d.schema.getters[k].0 in d.schema.setterFields
    requires !FieldEquals(ops, TypeOf(d.schema, d.schema.getters[k].0), Observed(View(c), d.schema)[d.schema.getters[k].0], v)
    requires FieldHash(ops, TypeOf(d.schema, d.schema.getters[k].0), v) !=
             FieldHash(ops, TypeOf(d.schema, d.schema.getters[k].0), Observed(View(c), d.schema)[d.schema.getters[k].0])
    modifies d
    ensures unchanged(c.owner.Repr)
    ensures Conforms(Snapshot(d), d.schema)
    ensures !RecordEquals(ops, d.schema, View(c), AsRecord(Snapshot(d)))
    ensures RecordHashCode(ops, d.schema, View(c)) != RecordHashCode(ops, d.schema, Snapshot(d))
  {
    var s := d.schema;
    var f := s.getters[k].0;
    ghost var o := Observed(View(c), s);
    assert f in KeySet(s.getters);
    d.SetField(f, v);
    assert unchanged(c.owner.Repr);
    assert Observed(View(c), s) == o;
    SnapshotSetter(s, o, f, v);
    ObservedSnapshot(d);
    UnequalWhenOneGetterDiffers(ops, s, View(c), Snapshot(d), k, v);
  }

  /** A copy of `g` with getter field `f` then set to `v` returns `g[f := v]` from its getters. */
  lemma SnapshotSetter(s: Schema, g: Rec, f: string, v: Value)
    requires SchemaValid(s) && g.Keys == KeySet(s.getters) && f in KeySet(s.getters)
    ensures KeySet(s.getters) <= SnapshotOf(s, g)[f := v].Keys
    ensures GetterValues(s, SnapshotOf(s, g)[f := v]) == g[f := v]
  {
  }

  /**
   * `for (i = 0; i < size(); i++) get(i).setF(i);` on an `int` field: slot
   * `i` holds `i` in that field and nothing else changes.
   */
  method NumberSlots(a: RecordArrayImpl, f: string)
    requires a.Valid() && f in a.schema.setterFields
    modifies a.Repr
    ensures a.Valid()
    ensures forall i :: 0 <= i < Volume(a.dims) ==> a.Slot(i) == old(a.Slot(i))[f := IntV(i)]
  {
    var n := a.Size();
    var i := 0;
    while i < n
      invariant 0 <= i <= n && a.Valid()
      invariant forall j :: 0 <= j < i ==> a.Slot(j) == old(a.Slot(j))[f := IntV(j)]
      invariant forall j :: i <= j < n ==> a.Slot(j) == old(a.Slot(j))
    {
      var c := a.Get(i);
      c.SetField(f, IntV(i));
      i := i + 1;
    }
  }

  /**
   * The fill loop of the 3-D test: `index` counts up while `get(i, j, k)`
   * walks the indices in row-major order, so every slot `n` ends up holding
   * `n` in field `f`, the value `get(n).getF()` then returns.
   */
  method FillRowMajor(a: RecordArrayImpl, f: string)
    requires a.Valid() && f in a.schema.setterFields
    modifies a.Repr
    ensures a.Valid()
    ensures forall n :: 0 <= n < Volume(a.dims) ==> a.Slot(n) == old(a.Slot(n))[f := IntV(n)]
  {
    var d := a.dims;
    DimensionBounds(d);
    ghost var before := a.Contents();
    a.SlotsOfContents(before);
    var index: JInt := 0;
    var i: JInt := 0;
    while i < d.d0
      invariant 0 <= i <= d.d0 && index == i * (d.d1 * d.d2)
      invariant FilledUpTo(a, f, before, index)
    {
      index := FillPlane(a, f, i, index, before);
      i := i + 1;
    }
  }

  /** Slots below `index` hold their number in `f`; the others are as in `before`. */
  ghost predicate FilledUpTo(a: RecordArrayImpl, f: string, before: map<string, seq<Value>>, index: int)
    reads a.Repr
  {
    a.Valid() &&
    (forall g :: g in before ==> |before[g]| == Volume(a.dims)) &&
    forall n :: 0 <= n < Volume(a.dims) ==>
      a.Slot(n) == if n < index then SlotOf(before, n)[f := IntV(n)] else SlotOf(before, n)
  }

  /** The middle loop, over `j`, for one value of `i`. */
  method FillPlane(a: RecordArrayImpl, f: string, i: JInt, index: JInt, ghost before: map<string, seq<Value>>)
    returns (next: JInt)
    requires a.Valid() && f in a.schema.setterFields && 0 <= i < a.dims.d0
    requires index == i * (a.dims.d1 * a.dims.d2) && FilledUpTo(a, f, before, index)
    modifies a.Repr
    ensures next == (i + 1) * (a.dims.d1 * a.dims.d2) && FilledUpTo(a, f, before, next)
  {
    var d := a.dims;
    DimensionBounds(d);
    next := index;
    var j: JInt := 0;
    while j < d.d1
      invariant 0 <= j <= d.d1 && next == (i * d.d1 + j) * d.d2
      invariant FilledUpTo(a, f, before, next)
    {
      next := FillRow(a, f, i, j, next, before);
      j := j + 1;
    }
    NextPlane(i, d.d1, d.d2);
  }

  /** The inner loop, over `k`, for one value of `i` and `j`. */
  method FillRow(a: RecordArrayImpl, f: string, i: JInt, j: JInt, index: JInt, ghost before: map<string, seq<Value>>)
    returns (next: JInt)
    requires a.Valid() && f in a.schema.setterFields && 0 <= i < a.dims.d0 && 0 <= j < a.dims.d1
    requires index == (i * a.dims.d1 + j) * a.dims.d2 && FilledUpTo(a, f, before, index)
    modifies a.Repr
    ensures next == index + a.dims.d2 && FilledUpTo(a, f, before, next)
  {
    var d := a.dims;
    DimensionBounds(d);
    RowBound(i, d.d1, d.d0);
    RowBound(i * d.d1 + j, d.d2, d.d0 * d.d1);
    next := index;
    var k: JInt := 0;
    while k < d.d2
      invariant 0 <= k <= d.d2 && next == index + k
      invariant FilledUpTo(a, f, before, next)
    {
      Flat3Exact(d, i, j, k);
      FillSlot(a, f, i, j, k, next, before);
      next := next + 1;
      k := k + 1;
    }
  }

  /** The loop body: `get(i, j, k).setF(index)` on the slot numbered `index`. */
  method FillSlot(a: RecordArrayImpl, f: string, i: JInt, j: JInt, k: JInt, index: JInt, ghost before: map<string, seq<Value>>)
    requires a.Valid() && f in a.schema.setterFields && Flat3(a.dims, i, j, k) == index
    requires 0 <= index < Volume(a.dims) && FilledUpTo(a, f, before, index)
    modifies a.Repr
    ensures FilledUpTo(a, f, before, index + 1)
  {
    var c := a.Get3(i, j, k);
    label L:
    c.SetField(f, IntV(index));
    forall n | 0 <= n < Volume(a.dims)
      ensures a.Slot(n) == if n < index + 1 then SlotOf(before, n)[f := IntV(n)] else SlotOf(before, n)
    {
      if n != index {
        assert a.Slot(n) == old@L(a.Slot(n));
      }
    }
  }

  /** Each dimension is an `int`, and the slot count is `d0 * (d1 * d2)`. */
  lemma DimensionBounds(d: Dims)
    requires Positive(d) && Fits(d)
    ensures d.d0 <= MaxInt && d.d1 <= MaxInt && d.d2 <= MaxInt
    ensures d.d0 * (d.d1 * d.d2) == Volume(d) == (d.d0 * d.d1) * d.d2
  {
    MulMonotone(d.d0, d.d1);
    MulMonotone(d.d0 * d.d1, d.d2);
    MulMonotone(d.d1, d.d0 * d.d2);
    MulMonotone(d.d2, d.d0 * d.d1);
    assert Volume(d) == d.d1 * (d.d0 * d.d2) == d.d2 * (d.d0 * d.d1);
  }

  lemma NextPlane(i: int, a: int, b: int)
    ensures (i * a + a) * b == (i + 1) * (a * b)
  {
  }
}
