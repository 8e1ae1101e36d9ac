/**
 * Field extraction and validation: how the annotation processor turns the
 * members of an `@Record` interface into the schema of the generated
 * container.  Every non-default method is looked at in declaration order:
 * `get<X>` and `is<X>` define a readable field `X` of the return type,
 * `set<X>` a writable field `X` of the parameter type, `copy` enables the
 * detached snapshot, and anything else is ignored.
 */
module Schema {
  import opened Wrappers
  import opened OrderedMap

  datatype ElementKind = MethodElement | OtherElement

  /** One member of the annotated type, as the compiler reports it. */
  datatype Member = Member(kind: ElementKind, name: string, params: seq<string>, returnType: string, isDefault: bool)

  /** The annotated type: whether it is an interface, its type name, its members in order. */
  datatype Declaration = Declaration(isInterface: bool, recordType: string, members: seq<Member>)

  datatype SchemaError =
    | OnlyInterfaces(recordType: string)
    | InvalidGetterName(methodName: string)
    | ConflictingGetterTypes(methodName: string, known: string, found: string)
    | SetterNeedsOneParameter(methodName: string)
    | SetterNeedsVoidReturn(methodName: string)
    | CopyNeedsNoParameters(methodName: string)
    | CopyMustReturnRecordType(methodName: string)

  /**
   * What extraction produces: the ordered field-to-type map, the ordered
   * field-to-getter map, the fields that received a generated setter, and
   * whether a valid `copy` method was declared.
   */
  datatype Schema = Schema(recordType: string, fields: OMap, getters: OMap, setterFields: set<string>, hasCopy: bool)

  function Initial(recordType: string): Schema
  {
    Schema(recordType, [], [], {}, false)
  }

  /** The shape every extracted schema has. */
  predicate SchemaValid(s: Schema)
  {
    DistinctKeys(s.fields) && DistinctKeys(s.getters) &&
    KeySet(s.getters) <= KeySet(s.fields) && s.setterFields <= KeySet(s.fields)
  }

  /** The declared type of field `f` ("" if there is no such field). */
  function TypeOf(s: Schema, f: string): string
  {
    match Get(s.fields, f)
    case Some(t) => t
    case None => ""
  }

  predicate HasPrefix(s: string, p: string)
  {
    |p| <= |s| && s[..|p|] == p
  }

  /** The three accessor prefixes and the name `copy` classify a name in at most one way. */
  lemma NameClasses(n: string)
    ensures HasPrefix(n, "get") ==> !HasPrefix(n, "is") && n != "copy"
    ensures HasPrefix(n, "is") ==> !HasPrefix(n, "set") && n != "copy"
    ensures HasPrefix(n, "set") ==> n != "copy"
  {
    if |n| > 0 {
      assert "get"[0] == 'g' && "is"[0] == 'i' && "set"[0] == 's' && "copy"[0] == 'c';
      assert HasPrefix(n, "get") ==> n[0] == 'g';
      assert HasPrefix(n, "is") ==> n[0] == 'i';
      assert HasPrefix(n, "set") ==> n[0] == 's';
    }
  }

  /** Only methods that are not `default` take part. */
  predicate Considered(m: Member)
  {
    m.kind == MethodElement && !m.isDefault
  }

  predicate IsGetter(m: Member)
  {
    Considered(m) && (HasPrefix(m.name, "get") || HasPrefix(m.name, "is"))
  }

  predicate IsSetter(m: Member)
  {
    Considered(m) && !HasPrefix(m.name, "get") && !HasPrefix(m.name, "is") && HasPrefix(m.name, "set")
  }

  predicate IsAccessor(m: Member)
  {
    IsGetter(m) || IsSetter(m)
  }

  predicate IsCopy(m: Member)
  {
    Considered(m) && m.name == "copy"
  }

  /** The field an accessor name refers to: the name with its `get`, `is` or `set` prefix removed. */
  function FieldOf(name: string): string
  {
    if HasPrefix(name, "get") then name[3..]
    else if HasPrefix(name, "is") then name[2..]
    else if HasPrefix(name, "set") then name[3..]
    else ""
  }

  /** The type an accessor gives its field: a getter's return type, a setter's parameter type. */
  function AccessorType(m: Member): string
  {
    if IsGetter(m) then m.returnType
    else if |m.params| > 0 then m.params[0]
    else ""
  }

  /** The per-method signature rules, independent of the other members. */
  predicate WellFormed(recordType: string, m: Member)
  {
    (IsAccessor(m) ==> FieldOf(m.name) != "") &&
    (IsSetter(m) ==> |m.params| == 1 && m.returnType == "void") &&
    (IsCopy(m) ==> |m.params| == 0 && m.returnType == recordType)
  }

  /** `validateField`: the field name is non-empty and does not change a known field's type. */
  function Validate(fields: OMap, methodName: string, fname: string, t: string): (e: Option<SchemaError>)
    ensures e.None? <==> fname != "" && (Get(fields, fname).Some? ==> Get(fields, fname).value == t)
  {
    if fname == "" then Some(InvalidGetterName(methodName))
    else match Get(fields, fname)
      case Some(known) => if known != t then Some(ConflictingGetterTypes(methodName, known, t)) else None
      case None => None
  }

  /** What one member does to the schema built so far. */
  function Step(recordType: string, s: Schema, m: Member): (r: Result<Schema, SchemaError>)
    ensures r.Ok? <==> (WellFormed(recordType, m) &&
            (IsAccessor(m) && Get(s.fields, FieldOf(m.name)).Some? ==> Get(s.fields, FieldOf(m.name)).value == AccessorType(m)))
    ensures r.Ok? ==> r.value.recordType == s.recordType
    ensures r.Ok? ==> r.value.fields == if IsAccessor(m) then Put(s.fields, FieldOf(m.name), AccessorType(m)) else s.fields
    ensures r.Ok? ==> r.value.getters == if IsGetter(m) then Put(s.getters, FieldOf(m.name), m.name) else s.getters
    ensures r.Ok? ==> r.value.setterFields == if IsSetter(m) then s.setterFields + {FieldOf(m.name)} else s.setterFields
    ensures r.Ok? ==> r.value.hasCopy == (s.hasCopy || IsCopy(m))
  {
    NameClasses(m.name);
    if !Considered(m) then Ok(s)
    else if HasPrefix(m.name, "get") || HasPrefix(m.name, "is") then
      var fname := if HasPrefix(m.name, "get") then m.name[3..] else m.name[2..];
      match Validate(s.fields, m.name, fname, m.returnType)
      case Some(e) => Err(e)
      case None => Ok(s.(fields := Put(s.fields, fname, m.returnType), getters := Put(s.getters, fname, m.name)))
    else if HasPrefix(m.name, "set") then
      var fname := m.name[3..];
      if |m.params| != 1 then Err(SetterNeedsOneParameter(m.name))
      else if m.returnType != "void" then Err(SetterNeedsVoidReturn(m.name))
      else match Validate(s.fields, m.name, fname, m.params[0])
        case Some(e) => Err(e)
        case None => Ok(s.(fields := Put(s.fields, fname, m.params[0]), setterFields := s.setterFields + {fname}))
    else if m.name == "copy" then
      if |m.params| != 0 then Err(CopyNeedsNoParameters(m.name))
      else if m.returnType != recordType then Err(CopyMustReturnRecordType(m.name))
      else Ok(s.(hasCopy := true))
    else Ok(s)
  }

  /** The members processed in order; the first failing member's error aborts extraction. */
  function Fold(recordType: string, s: Schema, ms: seq<Member>): Result<Schema, SchemaError>
    decreases ms
  {
    if ms == [] then Ok(s)
    else match Step(recordType, s, ms[0])
      case Err(e) => Err(e)
      case Ok(s') => Fold(recordType, s', ms[1..])
  }

  /** Extraction of a whole declaration: only interfaces may carry `@Record`. */
  function Extract(d: Declaration): Result<Schema, SchemaError>
  {
    if !d.isInterface then Err(OnlyInterfaces(d.recordType))
    else Fold(d.recordType, Initial(d.recordType), d.members)
  }

  /**
   * The processor's loop over the interface's members, updating the two
   * ordered maps, the setter list and the copy flag in place.
   */
  method ExtractSchema(d: Declaration) returns (r: Result<Schema, SchemaError>)
    ensures r == Extract(d)
  {
    if !d.isInterface {
      return Err(OnlyInterfaces(d.recordType));
    }
    var rt := d.recordType;
    var fieldsToTypes: OMap := [];
    var fieldsToGetters: OMap := [];
    var setterFields: set<string> := {};
    var hasCopyMethod := false;
    var i := 0;
    while i < |d.members|
      invariant 0 <= i <= |d.members|
      invariant Fold(rt, Schema(rt, fieldsToTypes, fieldsToGetters, setterFields, hasCopyMethod), d.members[i..]) == Extract(d)
    {
      assert d.members[i..][1..] == d.members[i + 1..];
      var m := d.members[i];
      if m.kind == MethodElement && !m.isDefault {
        var name := m.name;
        if HasPrefix(name, "get") || HasPrefix(name, "is") {
          var fname := if HasPrefix(name, "get") then name[3..] else name[2..];
          var err := Validate(fieldsToTypes, name, fname, m.returnType);
          if err.Some? {
            return Err(err.value);
          }
          fieldsToTypes := Put(fieldsToTypes, fname, m.returnType);
          fieldsToGetters := Put(fieldsToGetters, fname, name);
        } else if HasPrefix(name, "set") {
          var fname := name[3..];
          if |m.params| != 1 {
            return Err(SetterNeedsOneParameter(name));
          }
          if m.returnType != "void" {
            return Err(SetterNeedsVoidReturn(name));
          }
          var err := Validate(fieldsToTypes, name, fname, m.params[0]);
          if err.Some? {
            return Err(err.value);
          }
          fieldsToTypes := Put(fieldsToTypes, fname, m.params[0]);
          setterFields := setterFields + {fname};
        } else if name == "copy" {
          if |m.params| != 0 {
            return Err(CopyNeedsNoParameters(name));
          }
          if m.returnType != rt {
            return Err(CopyMustReturnRecordType(name));
          }
          hasCopyMethod := true;
        }
      }
      i := i + 1;
    }
    return Ok(Schema(rt, fieldsToTypes, fieldsToGetters, setterFields, hasCopyMethod));
  }

  // ---------------------------------------------------------------------------
  // Which declarations are accepted

  /** No two accessors of one field, and no accessor and a field already known, disagree on the type. */
  predicate TypesAgree(s: Schema, ms: seq<Member>)
  {
    (forall i :: 0 <= i < |ms| && IsAccessor(ms[i]) && Get(s.fields, FieldOf(ms[i].name)).Some? ==>
       Get(s.fields, FieldOf(ms[i].name)).value == AccessorType(ms[i])) &&
    (forall i, j :: 0 <= i < j < |ms| && IsAccessor(ms[i]) && IsAccessor(ms[j]) && FieldOf(ms[i].name) == FieldOf(ms[j].name) ==>
       AccessorType(ms[i]) == AccessorType(ms[j]))
  }

  /**
   * Extraction succeeds exactly when every member obeys the signature rules
   * and all accessors of each field agree on its type; the order of the
   * members only decides which error is reported.
   */
  lemma {:induction false} FoldSucceedsIff(recordType: string, s: Schema, ms: seq<Member>)
    ensures Fold(recordType, s, ms).Ok? <==>
            (forall i :: 0 <= i < |ms| ==> WellFormed(recordType, ms[i])) && TypesAgree(s, ms)
    decreases ms
  {
    if ms != [] {
      var m, rest := ms[0], ms[1..];
      assert ms == [m] + rest;
      var st := Step(recordType, s, m);
      if st.Ok? {
        FoldSucceedsIff(recordType, st.value, rest);
        TypesAgreeStep(s, st.value, m, rest);
        assert (forall i :: 0 <= i < |ms| ==> WellFormed(recordType, ms[i])) <==>
               WellFormed(recordType, m) && (forall i :: 0 <= i < |rest| ==> WellFormed(recordType, rest[i])) by {
          assert forall i :: 0 < i < |ms| ==> ms[i] == rest[i - 1];
        }
      } else if WellFormed(recordType, m) {
        assert !TypesAgree(s, ms) by {
          assert ms[0] == m;
        }
      }
    }
  }

  /** One accepted member moves the type agreement of the remaining members onto the extended schema. */
  lemma TypesAgreeStep(s: Schema, s': Schema, m: Member, rest: seq<Member>)
    requires s'.fields == if IsAccessor(m) then Put(s.fields, FieldOf(m.name), AccessorType(m)) else s.fields
    requires IsAccessor(m) && Get(s.fields, FieldOf(m.name)).Some? ==> Get(s.fields, FieldOf(m.name)).value == AccessorType(m)
    ensures TypesAgree(s', rest) <==> TypesAgree(s, [m] + rest)
  {
    var ms := [m] + rest;
    var f := FieldOf(m.name);
    assert forall i :: 0 < i < |ms| ==> ms[i] == rest[i - 1];
    if IsAccessor(m) {
      PutGet(s.fields, f, AccessorType(m));
      forall g | g != f ensures Get(s'.fields, g) == Get(s.fields, g) {
        PutGetOther(s.fields, f, AccessorType(m), g);
      }
    }
    if TypesAgree(s', rest) {
      forall i | 0 <= i < |ms| && IsAccessor(ms[i]) && Get(s.fields, FieldOf(ms[i].name)).Some?
        ensures Get(s.fields, FieldOf(ms[i].name)).value == AccessorType(ms[i])
      {
        if i > 0 {
          assert ms[i] == rest[i - 1];
        }
      }
      forall i, j | 0 <= i < j < |ms| && IsAccessor(ms[i]) && IsAccessor(ms[j]) && FieldOf(ms[i].name) == FieldOf(ms[j].name)
        ensures AccessorType(ms[i]) == AccessorType(ms[j])
      {
        assert ms[j] == rest[j - 1];
        if i > 0 {
          assert ms[i] == rest[i - 1];
        } else {
          assert Get(s'.fields, f).Some?;
        }
      }
    }
    if TypesAgree(s, ms) {
      forall i | 0 <= i < |rest| && IsAccessor(rest[i]) && Get(s'.fields, FieldOf(rest[i].name)).Some?
        ensures Get(s'.fields, FieldOf(rest[i].name)).value == AccessorType(rest[i])
      {
        assert rest[i] == ms[i + 1];
        if IsAccessor(m) && FieldOf(rest[i].name) == f {
          assert AccessorType(ms[0]) == AccessorType(ms[i + 1]);
        }
      }
      forall i, j | 0 <= i < j < |rest| && IsAccessor(rest[i]) && IsAccessor(rest[j]) && FieldOf(rest[i].name) == FieldOf(rest[j].name)
        ensures AccessorType(rest[i]) == AccessorType(rest[j])
      {
        assert rest[i] == ms[i + 1] && rest[j] == ms[j + 1];
      }
    }
  }

  /** A method named exactly `get` or `is` leaves an empty field name and makes extraction fail. */
  lemma EmptyFieldNameRejected(d: Declaration, i: int)
    requires d.isInterface && 0 <= i < |d.members|
    requires Considered(d.members[i]) && (d.members[i].name == "get" || d.members[i].name == "is" || d.members[i].name == "set")
    ensures Extract(d).Err?
  {
    var m := d.members[i];
    assert HasPrefix(m.name, "get") || HasPrefix(m.name, "is") || HasPrefix(m.name, "set");
    assert IsAccessor(m) && FieldOf(m.name) == "";
    FoldSucceedsIff(d.recordType, Initial(d.recordType), d.members);
  }

  /** On its own, such a method fails with "Invalid getter name". */
  lemma EmptyFieldNameMessage(recordType: string, s: Schema, m: Member)
    requires Considered(m) && (m.name == "get" || m.name == "is" || (m.name == "set" && |m.params| == 1 && m.returnType == "void"))
    ensures Step(recordType, s, m) == Err(InvalidGetterName(m.name))
  {
    assert HasPrefix(m.name, "get") || HasPrefix(m.name, "is") || HasPrefix(m.name, "set");
  }

  /** A second accessor giving a known field another type fails with "Conflicting getter types". */
  lemma ConflictMessage(recordType: string, s: Schema, m: Member, known: string)
    requires IsGetter(m) && FieldOf(m.name) != ""
    requires Get(s.fields, FieldOf(m.name)) == Some(known) && known != m.returnType
    ensures Step(recordType, s, m) == Err(ConflictingGetterTypes(m.name, known, m.returnType))
  {
  }

  // ---------------------------------------------------------------------------
  // What an accepted declaration yields

  /** The field names the accessors mention, in member order, repeats included. */
  function AccessorFields(ms: seq<Member>): (fs: seq<string>)
    ensures forall i :: 0 <= i < |ms| && IsAccessor(ms[i]) ==> FieldOf(ms[i].name) in fs
    ensures forall x :: x in fs ==> exists i :: 0 <= i < |ms| && IsAccessor(ms[i]) && FieldOf(ms[i].name) == x
  {
    if ms == [] then []
    else
      var tail := AccessorFields(ms[1..]);
      assert forall i :: 1 <= i < |ms| ==> ms[i] == ms[1..][i - 1];
      assert forall x :: x in tail ==> exists i :: 1 <= i < |ms| && IsAccessor(ms[i]) && FieldOf(ms[i].name) == x by {
        forall x | x in tail ensures exists i :: 1 <= i < |ms| && IsAccessor(ms[i]) && FieldOf(ms[i].name) == x {
          var i :| 0 <= i < |ms[1..]| && IsAccessor(ms[1..][i]) && FieldOf(ms[1..][i].name) == x;
          assert ms[i + 1] == ms[1..][i];
        }
      }
      (if IsAccessor(ms[0]) then [FieldOf(ms[0].name)] else []) + tail
  }

  /** The field names the getters mention, in member order, repeats included. */
  function GetterFields(ms: seq<Member>): seq<string>
  {
    if ms == [] then []
    else (if IsGetter(ms[0]) then [FieldOf(ms[0].name)] else []) + GetterFields(ms[1..])
  }

  /** `acc` extended by the names of `xs` that it does not hold yet, at their first occurrence. */
  function DedupOnto(acc: seq<string>, xs: seq<string>): seq<string>
    decreases xs
  {
    if xs == [] then acc
    else DedupOnto(if xs[0] in acc then acc else acc + [xs[0]], xs[1..])
  }

  /**
   * The ordered maps list each field at the position of the first accessor
   * (for `getters`: the first getter) that mentioned it.
   */
  lemma {:induction false} FoldKeyOrder(recordType: string, s: Schema, ms: seq<Member>, s': Schema)
    requires Fold(recordType, s, ms) == Ok(s')
    ensures Keys(s'.fields) == DedupOnto(Keys(s.fields), AccessorFields(ms))
    ensures Keys(s'.getters) == DedupOnto(Keys(s.getters), GetterFields(ms))
    decreases ms
  {
    if ms != [] {
      var m := ms[0];
      var t := Step(recordType, s, m).value;
      FoldKeyOrder(recordType, t, ms[1..], s');
      var f := FieldOf(m.name);
      if IsAccessor(m) {
        PutKeys(s.fields, f, AccessorType(m));
        assert AccessorFields(ms) == [f] + AccessorFields(ms[1..]);
        assert ([f] + AccessorFields(ms[1..]))[1..] == AccessorFields(ms[1..]);
      } else {
        assert AccessorFields(ms) == AccessorFields(ms[1..]);
      }
      if IsGetter(m) {
        PutKeys(s.getters, f, m.name);
        assert GetterFields(ms) == [f] + GetterFields(ms[1..]);
        assert ([f] + GetterFields(ms[1..]))[1..] == GetterFields(ms[1..]);
      } else {
        assert GetterFields(ms) == GetterFields(ms[1..]);
      }
    }
  }

  /** Every accessor's field ends up with that accessor's type. */
  lemma {:induction false} FoldFieldTypes(recordType: string, s: Schema, ms: seq<Member>, s': Schema)
    requires Fold(recordType, s, ms) == Ok(s')
    ensures forall i :: 0 <= i < |ms| && IsAccessor(ms[i]) ==> Get(s'.fields, FieldOf(ms[i].name)) == Some(AccessorType(ms[i]))
    decreases ms
  {
    if ms != [] {
      var m, rest := ms[0], ms[1..];
      var t := Step(recordType, s, m).value;
      FoldFieldTypes(recordType, t, rest, s');
      forall i | 0 <= i < |ms| && IsAccessor(ms[i])
        ensures Get(s'.fields, FieldOf(ms[i].name)) == Some(AccessorType(ms[i]))
      {
        if i == 0 {
          PutGet(s.fields, FieldOf(m.name), AccessorType(m));
          FoldPreservesType(recordType, t, rest, s', FieldOf(m.name));
        } else {
          assert ms[i] == rest[i - 1];
        }
      }
    }
  }

  /** Every getter's field is among the getters, every setter's among the setter fields. */
  lemma {:induction false} FoldAccessorKinds(recordType: string, s: Schema, ms: seq<Member>, s': Schema)
    requires Fold(recordType, s, ms) == Ok(s')
    ensures forall i :: 0 <= i < |ms| && IsGetter(ms[i]) ==> FieldOf(ms[i].name) in KeySet(s'.getters)
    ensures forall i :: 0 <= i < |ms| && IsSetter(ms[i]) ==> FieldOf(ms[i].name) in s'.setterFields
    decreases ms
  {
    if ms != [] {
      var m, rest := ms[0], ms[1..];
      var t := Step(recordType, s, m).value;
      FoldAccessorKinds(recordType, t, rest, s');
      forall i | 0 <= i < |ms| && IsGetter(ms[i])
        ensures FieldOf(ms[i].name) in KeySet(s'.getters)
      {
        if i == 0 {
          PutGet(s.getters, FieldOf(m.name), m.name);
          FoldPreservesGetterKey(recordType, t, rest, s', FieldOf(m.name));
        } else {
          assert ms[i] == rest[i - 1];
        }
      }
      forall i | 0 <= i < |ms| && IsSetter(ms[i])
        ensures FieldOf(ms[i].name) in s'.setterFields
      {
        if i == 0 {
          FoldPreservesSetter(recordType, t, rest, s', FieldOf(m.name));
        } else {
          assert ms[i] == rest[i - 1];
        }
      }
    }
  }

  /** Once a field has a type, later members never change it. */
  lemma {:induction false} FoldPreservesType(recordType: string, s: Schema, ms: seq<Member>, s': Schema, f: string)
    requires Fold(recordType, s, ms) == Ok(s') && Get(s.fields, f).Some?
    ensures Get(s'.fields, f) == Get(s.fields, f)
    decreases ms
  {
    if ms != [] {
      var m := ms[0];
      var t := Step(recordType, s, m).value;
      if IsAccessor(m) {
        if FieldOf(m.name) == f {
          PutGet(s.fields, f, AccessorType(m));
        } else {
          PutGetOther(s.fields, FieldOf(m.name), AccessorType(m), f);
        }
      }
      FoldPreservesType(recordType, t, ms[1..], s', f);
    }
  }

  lemma {:induction false} FoldPreservesGetterKey(recordType: string, s: Schema, ms: seq<Member>, s': Schema, f: string)
    requires Fold(recordType, s, ms) == Ok(s') && f in KeySet(s.getters)
    ensures f in KeySet(s'.getters)
    decreases ms
  {
    if ms != [] {
      var m := ms[0];
      var t := Step(recordType, s, m).value;
      if IsGetter(m) {
        PutKeys(s.getters, FieldOf(m.name), m.name);
        KeySetOfKeys(s.getters);
        KeySetOfKeys(t.getters);
      }
      FoldPreservesGetterKey(recordType, t, ms[1..], s', f);
    }
  }

  lemma {:induction false} FoldPreservesSetter(recordType: string, s: Schema, ms: seq<Member>, s': Schema, f: string)
    requires Fold(recordType, s, ms) == Ok(s') && f in s.setterFields
    ensures f in s'.setterFields
    decreases ms
  {
    if ms != [] {
      FoldPreservesSetter(recordType, Step(recordType, s, ms[0]).value, ms[1..], s', f);
    }
  }

  /** `hasCopyMethod` is set exactly when some considered member is the `copy` method. */
  lemma {:induction false} FoldCopyFlag(recordType: string, s: Schema, ms: seq<Member>, s': Schema)
    requires Fold(recordType, s, ms) == Ok(s')
    ensures s'.hasCopy <==> s.hasCopy || exists i :: 0 <= i < |ms| && IsCopy(ms[i])
    decreases ms
  {
    if ms != [] {
      var t := Step(recordType, s, ms[0]).value;
      FoldCopyFlag(recordType, t, ms[1..], s');
      if exists i :: 0 <= i < |ms[1..]| && IsCopy(ms[1..][i]) {
        var i :| 0 <= i < |ms[1..]| && IsCopy(ms[1..][i]);
        assert ms[i + 1] == ms[1..][i];
      }
      if exists i :: 0 <= i < |ms| && IsCopy(ms[i]) {
        var i :| 0 <= i < |ms| && IsCopy(ms[i]);
        if i > 0 {
          assert ms[1..][i - 1] == ms[i];
        }
      }
    }
  }

  /** Extraction keeps the schema's shape: no duplicate keys, getters and setters name known fields. */
  lemma {:induction false} FoldValid(recordType: string, s: Schema, ms: seq<Member>, s': Schema)
    requires SchemaValid(s) && Fold(recordType, s, ms) == Ok(s')
    ensures SchemaValid(s') && s'.recordType == s.recordType
    decreases ms
  {
    if ms != [] {
      var m := ms[0];
      var t := Step(recordType, s, m).value;
      KeySetOfKeys(s.fields);
      KeySetOfKeys(s.getters);
      KeySetOfKeys(t.fields);
      KeySetOfKeys(t.getters);
      if IsAccessor(m) {
        PutDistinct(s.fields, FieldOf(m.name), AccessorType(m));
        PutKeys(s.fields, FieldOf(m.name), AccessorType(m));
      }
      if IsGetter(m) {
        PutDistinct(s.getters, FieldOf(m.name), m.name);
        PutKeys(s.getters, FieldOf(m.name), m.name);
      }
      assert SchemaValid(t);
      FoldValid(recordType, t, ms[1..], s');
    }
  }

  /** Default methods, non-methods and methods of any other name leave the schema as it is. */
  function Relevant(ms: seq<Member>): seq<Member>
  {
    if ms == [] then []
    else (if IsAccessor(ms[0]) || IsCopy(ms[0]) then [ms[0]] else []) + Relevant(ms[1..])
  }

  lemma {:induction false} IrrelevantMembersIgnored(recordType: string, s: Schema, ms: seq<Member>)
    ensures Fold(recordType, s, ms) == Fold(recordType, s, Relevant(ms))
    decreases ms
  {
    if ms != [] {
      var m := ms[0];
      if IsAccessor(m) || IsCopy(m) {
        assert Relevant(ms) == [m] + Relevant(ms[1..]);
        assert Relevant(ms)[1..] == Relevant(ms[1..]);
        match Step(recordType, s, m)
        case Err(_) =>
        case Ok(t) => IrrelevantMembersIgnored(recordType, t, ms[1..]);
      } else {
        NameClasses(m.name);
        assert Step(recordType, s, m) == Ok(s);
        assert Relevant(ms) == Relevant(ms[1..]);
        IrrelevantMembersIgnored(recordType, s, ms[1..]);
      }
    }
  }

  /** The detached snapshot class is emitted only for a schema with a valid `copy` method. */
  predicate EmitsDetached(s: Schema)
  {
    s.hasCopy
  }
}
