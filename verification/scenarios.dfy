/** Concrete cases: the test suite's pairs and further worked examples,
    evaluated under any registry that holds the standard classes, and under
    the default one. */
module Scenarios {
  import opened Wrappers
  import opened Json
  import opened Failures
  import opened ErrorProtocol
  import opened Registry
  import opened Resolution
  import opened Conversion
  import opened Aggregate
  import opened Composites

  /** The names the scenarios use, as any registry holding the standard
      classes resolves them. */
  lemma StandardLookups(rv: Resolver)
    requires Standard(rv.types)
    ensures Lookup(rv, "String") == Ok(BoundImplementation(StringType))
    ensures Lookup(rv, "Integer") == Ok(BoundImplementation(IntegerType))
    ensures Lookup(rv, "Array") == Ok(Implementation(ArrayType))
    ensures Lookup(rv, "Struct") == Ok(Implementation(StructType))
  {
    assert NameOf(Leaf(StringType)) == "String";
    assert NameOf(Leaf(IntegerType)) == "Integer";
    assert NameOf(Generic(ArrayType)) == "Array";
    assert NameOf(Generic(StructType)) == "Struct";
  }

  lemma NameLength(c: TypeClass)
    ensures |NameOf(c)| <= 8
  {
  }

  /** The default registry holds no type called "NotARealType". */
  lemma DefaultLacksUnknown()
    ensures "NotARealType" !in DefaultTypes()
  {
    forall c: TypeClass ensures NameOf(c) != "NotARealType" {
      NameLength(c);
    }
    DefaultTypesExact("NotARealType");
  }

  /** The struct of the error test: required "name" (String) and "tags"
      (Array of String), nothing optional. */
  function ErrorTestSchema(): Value
  {
    Obj([Entry("Struct", Obj([
      Entry("optional", Obj([])),
      Entry("required", Obj([
        Entry("name", Str("String")),
        Entry("tags", Obj([Entry("Array", Str("String"))]))]))]))])
  }

  function ErrorTestType(): Type
  {
    StructOf([Field("name", Concrete(StringType)), Field("tags", ArrayOf(Concrete(StringType)))], [])
  }

  lemma ErrorTestResolves(rv: Resolver)
    requires Standard(rv.types)
    ensures Resolve(rv, ErrorTestSchema()) == Ok(ErrorTestType())
  {
    StandardLookups(rv);
    var str := Concrete(StringType);
    var tagsSchema := Obj([Entry("Array", Str("String"))]);
    var req := Obj([Entry("name", Str("String")), Entry("tags", tagsSchema)]);
    var param := Obj([Entry("optional", Obj([])), Entry("required", req)]);
    ResolveName(rv, "String");
    ResolveGeneric(rv, "Array", Str("String"));
    BindChild(rv, ArrayType, Str("String"));
    TwoFields(rv, "name", Str("String"), str, "tags", tagsSchema, ArrayOf(str));
    NoFields(rv);
    assert Keys(param.entries) == ["optional", "required"];
    assert Member(param, "required") == req && Member(param, "optional") == Obj([]);
    DescriptorOutcome(rv, param);
    ResolveGeneric(rv, "Struct", param);
  }

  lemma NoFields(rv: Resolver)
    ensures ResolveFields(rv, Obj([]), 0) == Ok([])
  {
  }

  /** Two field schemas that resolve give the two fields, in order. */
  lemma TwoFields(rv: Resolver, k1: string, s1: Value, t1: Type, k2: string, s2: Value, t2: Type)
    requires Resolve(rv, s1) == Ok(t1) && Resolve(rv, s2) == Ok(t2)
    ensures ResolveFields(rv, Obj([Entry(k1, s1), Entry(k2, s2)]), 0) == Ok([Field(k1, t1), Field(k2, t2)])
  {
    var obj := Obj([Entry(k1, s1), Entry(k2, s2)]);
    assert ResolveFields(rv, obj, 2) == Ok([]);
    assert ResolveFields(rv, obj, 1) == Ok([Field(k2, t2)] + []);
    assert [Field(k2, t2)] + [] == [Field(k2, t2)];
    assert [Field(k1, t1)] + [Field(k2, t2)] == [Field(k1, t1), Field(k2, t2)];
  }

  /** One field schema that resolves gives the one field. */
  lemma OneField(rv: Resolver, k: string, s: Value, t: Type)
    requires Resolve(rv, s) == Ok(t)
    ensures ResolveFields(rv, Obj([Entry(k, s)]), 0) == Ok([Field(k, t)])
  {
    var obj := Obj([Entry(k, s)]);
    assert ResolveFields(rv, obj, 1) == Ok([]);
    assert [Field(k, t)] + [] == [Field(k, t)];
  }

  /** ... in particular under the default registry. */
  lemma DefaultErrorTestResolves()
    ensures Resolve(Resolver(DefaultTypes(), NoHook), ErrorTestSchema()) == Ok(ErrorTestType())
  {
    DefaultTypesStandard();
    ErrorTestResolves(Resolver(DefaultTypes(), NoHook));
  }

  /** The input of the error test: "tags" holds a boolean, "name" is
      missing and "lol" is not a field. */
  function ErrorTestInput(): seq<Entry>
  {
    [Entry("tags", Arr([Str("a"), Bool(true)])), Entry("lol", Int(1))]
  }

  /** How the error test's input meets its struct's fields: "name" is
      missing and "lol" is not declared. */
  lemma ErrorTestShape()
    ensures var t := ErrorTestType();
            && MissingFields(t.required, ErrorTestInput()) == [Invalid(MissingField("name"), [])]
            && UnexpectedFields(t, ErrorTestInput()) == [Invalid(UnexpectedField("lol"), [])]
  {
    var t := ErrorTestType();
    var entries := ErrorTestInput();
    var lol := entries[1];
    assert Names(t.required) == ["name", "tags"];
    assert Names(t.optional) == [];
    assert Keys(entries) == ["tags", "lol"];
    assert !Declared(t, "lol");
    assert entries[1..] == [lol];
    assert MissingFields(t.required[1..], entries) == [];
    assert UnexpectedFields(t, [lol]) == [Invalid(UnexpectedField("lol"), [])];
  }

  /** The error test's one declared entry is "tags", a list of strings. */
  lemma ErrorTestDeclared()
    ensures OnlyDeclared(ErrorTestType(), ErrorTestInput(), "tags", Arr([Str("a"), Bool(true)]),
                         ArrayOf(Concrete(StringType)))
  {
    var t := ErrorTestType();
    var entries := ErrorTestInput();
    var lol := entries[1];
    assert Names(t.required) == ["name", "tags"];
    assert Names(t.optional) == [];
    assert !Declared(t, "lol");
    assert entries[1..] == [lol];
    assert DeclaredEntries(t, [lol]) == [];
  }

  /** `["a", true]` as an Array of String: one error, at index 1. */
  lemma ErrorTestTags(env: Env)
    ensures Deserialize(env, ArrayOf(Concrete(StringType)), Arr([Str("a"), Bool(true)]))
            == Err(Many([Invalid(NotAString, [Index(1)])]))
  {
    var str := Concrete(StringType);
    assert Deserialize(env, str, Str("a")).Ok?;
    assert Deserialize(env, str, Bool(true)) == Err(Single(Invalid(NotAString, [])));
    SecondItemFails(env, str, Str("a"), Bool(true), Invalid(NotAString, []));
    assert [Index(1)] + [] == [Index(1)];
  }

  /** A two-element list whose second element alone fails, with one error,
      reports that error at index 1. */
  lemma SecondItemFails(env: Env, s: Type, x: Value, y: Value, e: Invalid)
    requires Deserialize(env, s, x).Ok? && Deserialize(env, s, y) == Err(Single(e))
    ensures Deserialize(env, ArrayOf(s), Arr([x, y])) == Err(Many([Invalid(e.kind, [Index(1)] + e.location)]))
  {
    var items := [x, y];
    ArrayDeserialize(env, s, items);
    assert !Deserialize(env, s, items[1]).Ok?;
    var r0 := Deserialize(env, s, x);
    assert Children(env, s, items) == [r0, Err(Single(e))];
    assert IndexSegments(2) == [Index(0), Index(1)];
    RelocatedPair(r0, Err(Single(e)), Index(0), Index(1));
    OnePrepended(Index(1), e);
    assert [] + [Invalid(e.kind, [Index(1)] + e.location)] == [Invalid(e.kind, [Index(1)] + e.location)];
  }

  /** The relocated errors of two children: the first's, then the second's. */
  lemma RelocatedPair(r0: Outcome, r1: Outcome, s0: Segment, s1: Segment)
    ensures Relocated([r0, r1], [s0, s1])
            == (if r0.Err? then PrependAll(s0, Iterate(r0.error)) else [])
             + (if r1.Err? then PrependAll(s1, Iterate(r1.error)) else [])
  {
    assert [r0, r1][1..] == [r1] && [s0, s1][1..] == [s1];
    RelocatedSingle(r1, s1);
  }

  /** The relocated errors of one child. */
  lemma RelocatedSingle(r: Outcome, s: Segment)
    ensures Relocated([r], [s]) == if r.Err? then PrependAll(s, Iterate(r.error)) else []
  {
    assert [r][1..] == [] && [s][1..] == [];
    var own := if r.Err? then PrependAll(s, Iterate(r.error)) else [];
    assert own + [] == own;
  }

  /** One bare error, relocated, is one error one segment deeper. */
  lemma OnePrepended(s: Segment, e: Invalid)
    ensures PrependAll(s, Iterate(Single(e))) == [Invalid(e.kind, [s] + e.location)]
  {
  }

  /** `{"tags": ["a", true], "lol": 1}` gives three errors, in this order:
      "name" missing at the root, "lol" unexpected at the root, and the
      boolean rejected at /tags/1. */
  lemma ErrorTestErrors(env: Env)
    ensures Deserialize(env, ErrorTestType(), Obj(ErrorTestInput()))
            == Err(Many([Invalid(MissingField("name"), []),
                         Invalid(UnexpectedField("lol"), []),
                         Invalid(NotAString, [Key("tags"), Index(1)])]))
  {
    ErrorTestShape();
    ErrorTestNested(env);
    ErrorsInOrder(env, ErrorTestType(), ErrorTestInput(),
                  Invalid(MissingField("name"), []), Invalid(UnexpectedField("lol"), []),
                  Invalid(NotAString, [Key("tags"), Index(1)]));
  }

  /** The "tags" field's errors, relocated under its key. */
  lemma ErrorTestNested(env: Env)
    ensures var t := ErrorTestType();
            var declared := DeclaredEntries(t, ErrorTestInput());
            Relocated(FieldChildren(env, t, declared), KeySegments(declared))
              == [Invalid(NotAString, [Key("tags"), Index(1)])]
  {
    ErrorTestDeclared();
    TagsNested(env, ErrorTestType(), ErrorTestInput());
  }

  /** Whatever struct input holds the error test's "tags" as its only
      declared entry gets the boolean's error under "tags". */
  lemma TagsNested(env: Env, t: Type, entries: seq<Entry>)
    requires OnlyDeclared(t, entries, "tags", Arr([Str("a"), Bool(true)]), ArrayOf(Concrete(StringType)))
    ensures var declared := DeclaredEntries(t, entries);
            Relocated(FieldChildren(env, t, declared), KeySegments(declared))
              == [Invalid(NotAString, [Key("tags"), Index(1)])]
  {
    ErrorTestTags(env);
    OneNestedError(env, t, entries, "tags", Arr([Str("a"), Bool(true)]),
                   ArrayOf(Concrete(StringType)), Invalid(NotAString, [Index(1)]));
    assert [Key("tags")] + [Index(1)] == [Key("tags"), Index(1)];
  }

  /** A struct input with one missing field, one undeclared key and one
      nested error reports them in that order. */
  lemma ErrorsInOrder(env: Env, t: Type, entries: seq<Entry>, m: Invalid, u: Invalid, n: Invalid)
    requires t.StructOf?
    requires MissingFields(t.required, entries) == [m]
    requires UnexpectedFields(t, entries) == [u]
    requires var declared := DeclaredEntries(t, entries);
             Relocated(FieldChildren(env, t, declared), KeySegments(declared)) == [n]
    ensures Deserialize(env, t, Obj(entries)) == Err(Many([m, u, n]))
  {
    StructFailure(env, t, entries, [m], [u], [n]);
    assert [m] + [u] + [n] == [m, u, n];
  }

  /** The only declared entry of a struct input is `k: v`, and `s` is the
      type of field `k`. */
  predicate OnlyDeclared(t: Type, entries: seq<Entry>, k: string, v: Value, s: Type)
  {
    t.StructOf? && DeclaredEntries(t, entries) == [Entry(k, v)] && Declared(t, k) && SpaceOf(t, k) == s
  }

  /** When the one declared field of a struct input fails with one error,
      that error is the only nested one, under the field's key. */
  lemma OneNestedError(env: Env, t: Type, entries: seq<Entry>, k: string, v: Value, s: Type, d: Invalid)
    requires OnlyDeclared(t, entries, k, v, s)
    requires Deserialize(env, s, v) == Err(Many([d]))
    ensures var declared := DeclaredEntries(t, entries);
            Relocated(FieldChildren(env, t, declared), KeySegments(declared))
              == [Invalid(d.kind, [Key(k)] + d.location)]
  {
    NestedUnderKey(env, t, k, v, [d]);
  }

  /** A struct input's one declared field whose value fails has its errors
      relocated under its key. */
  lemma NestedUnderKey(env: Env, t: Type, k: string, v: Value, inner: seq<Invalid>)
    requires t.StructOf? && Declared(t, k)
    requires Deserialize(env, SpaceOf(t, k), v) == Err(Many(inner))
    ensures Relocated(FieldChildren(env, t, [Entry(k, v)]), KeySegments([Entry(k, v)]))
            == PrependAll(Key(k), inner)
  {
    var declared := [Entry(k, v)];
    assert FieldChildren(env, t, declared) == [Err(Many(inner))];
    assert KeySegments(declared) == [Key(k)];
    RelocatedSingle(Err(Many(inner)), Key(k));
  }

  /** A struct input with an undeclared key fails with its three groups of
      errors in order. */
  lemma StructFailure(env: Env, t: Type, entries: seq<Entry>,
                      missing: seq<Invalid>, unexpected: seq<Invalid>, nested: seq<Invalid>)
    requires t.StructOf?
    requires MissingFields(t.required, entries) == missing
    requires UnexpectedFields(t, entries) == unexpected && |unexpected| > 0
    requires var declared := DeclaredEntries(t, entries);
             Relocated(FieldChildren(env, t, declared), KeySegments(declared)) == nested
    ensures Deserialize(env, t, Obj(entries)) == Err(Many(missing + unexpected + nested))
  {
    StructDeserialize(env, t, entries);
    UnexpectedFieldsNone(t, entries);
  }

  /** The Schema type accepts "Integer" and refuses a generic the registry
      does not hold. */
  lemma SchemaExamples(env: Env)
    requires Standard(env.resolver.types)
    requires "NotARealType" !in env.resolver.types
    ensures Check(env, Concrete(SchemaType), Str("Integer"))
    ensures !Check(env, Concrete(SchemaType), Obj([Entry("NotARealType", Int(1))]))
  {
    var base := Resolver(env.resolver.types, NoHook);
    StandardLookups(base);
    assert Resolve(base, Str("Integer")).Ok?;
    assert Resolve(base, Obj([Entry("NotARealType", Int(1))])) == Err(UnknownType("NotARealType"));
  }

  /** Both examples hold under the default registry. */
  lemma DefaultSchemaExamples(host: Host)
    ensures var env := Env(Resolver(DefaultTypes(), NoHook), host);
            && Check(env, Concrete(SchemaType), Str("Integer"))
            && !Check(env, Concrete(SchemaType), Obj([Entry("NotARealType", Int(1))]))
  {
    DefaultTypesStandard();
    DefaultLacksUnknown();
    SchemaExamples(Env(Resolver(DefaultTypes(), NoHook), host));
  }

  /** A name both required and optional is refused when the struct is built. */
  lemma OverlapRefused(rv: Resolver)
    requires Standard(rv.types)
    ensures Resolve(rv, Obj([Entry("Struct", Obj([
              Entry("required", Obj([Entry("a", Str("Integer"))])),
              Entry("optional", Obj([Entry("a", Str("Integer"))]))]))]))
            == Err(StructOverlap)
  {
    StandardLookups(rv);
    var fields := Obj([Entry("a", Str("Integer"))]);
    var param := Obj([Entry("required", fields), Entry("optional", fields)]);
    var a := Field("a", Concrete(IntegerType));
    ResolveName(rv, "Integer");
    OneField(rv, "a", Str("Integer"), Concrete(IntegerType));
    assert !Disjoint([a], [a]) by {
      assert Names([a]) == ["a"];
      assert "a" in Names([a]);
    }
    assert Keys(param.entries) == ["required", "optional"];
    assert Member(param, "required") == fields && Member(param, "optional") == fields;
    DescriptorOutcome(rv, param);
    ResolveGeneric(rv, "Struct", param);
    assert BindGeneric(rv, StructType, param) == Err(StructOverlap);
  }

  /** A struct with a required timestamp "a" and an optional integer "b". */
  function TimedType(): Type
  {
    StructOf([Field("a", Concrete(DateTimeType))], [Field("b", Concrete(IntegerType))])
  }

  lemma TimedShape(ts: string)
    ensures var a := Entry("a", Str(ts));
            var c := Entry("c", Int(1));
            var t := TimedType();
            && Declared(t, "a") && !Declared(t, "c")
            && SpaceOf(t, "a") == Concrete(DateTimeType)
            && Keys([a]) == ["a"]
            && MissingFields(t.required, [a, c]) == []
            && UnexpectedFields(t, [a, c]) == [Invalid(UnexpectedField("c"), [])]
            && DeclaredEntries(t, [a, c]) == [a]
  {
    var t := TimedType();
    var a := Entry("a", Str(ts));
    var c := Entry("c", Int(1));
    assert Names(t.required) == ["a"];
    assert Names(t.optional) == ["b"];
    var entries := [a, c];
    assert Keys(entries) == ["a", "c"];
    assert entries[1..] == [c];
    assert MissingFields(t.required[1..], entries) == [];
    assert UnexpectedFields(t, [c]) == [Invalid(UnexpectedField("c"), [])];
    assert DeclaredEntries(t, [c]) == [];
  }

  /** With a timestamp `ts` that parses, `{"a": ts}` deserializes with the
      optional "b" left out. */
  lemma OptionalFieldAbsent(env: Env, ts: string, d: DateTime)
    requires env.host.parseTime(ts) == Some(d)
    ensures Deserialize(env, TimedType(), Obj([Entry("a", Str(ts))])) == Ok(Obj([Entry("a", Time(d))]))
  {
    TimedShape(ts);
    assert Names(TimedType().required) == ["a"];
    assert Deserialize(env, Concrete(DateTimeType), Str(ts)) == Ok(Time(d));
    SingleFieldStruct(env, TimedType(), "a", Str(ts), Time(d));
  }

  /** An object holding exactly the one required field of a struct gives
      that field's value back, deserialized. */
  lemma SingleFieldStruct(env: Env, t: Type, k: string, v: Value, w: Value)
    requires t.StructOf? && Names(t.required) == [k] && Declared(t, k)
    requires Deserialize(env, SpaceOf(t, k), v) == Ok(w)
    ensures Deserialize(env, t, Obj([Entry(k, v)])) == Ok(Obj([Entry(k, w)]))
  {
    var entries := [Entry(k, v)];
    SingleFieldShape(t, k, v);
    var rs := FieldChildren(env, t, entries);
    assert rs == [Ok(w)];
    StructUnfold(env, t, entries);
    StructBodyOutcome(t, entries, rs);
    var r := Deserialize(env, t, Obj(entries)).value;
    assert r.entries == [Entry(k, w)] by {
      assert |r.entries| == |Keys(r.entries)| == 1;
    }
  }

  /** An object holding exactly the one required field of a struct has no
      missing and no undeclared field, and that field is its declared part. */
  lemma SingleFieldShape(t: Type, k: string, v: Value)
    requires t.StructOf? && Names(t.required) == [k] && Declared(t, k)
    ensures var entries := [Entry(k, v)];
            && DeclaredEntries(t, entries) == entries
            && MissingFields(t.required, entries) == []
            && UnexpectedFields(t, entries) == []
            && Keys(entries) == [k]
  {
    var entries := [Entry(k, v)];
    assert Keys(entries) == [k];
    assert |t.required| == 1 && t.required[0].name == k by {
      assert |t.required| == |Names(t.required)|;
    }
    assert MissingFields(t.required[1..], entries) == [];
    assert entries[1..] == [];
  }

  /** `{"a": ts, "c": 1}` fails with exactly one error: "c" unexpected at the
      root. */
  lemma UndeclaredFieldRejected(env: Env, ts: string, d: DateTime)
    requires env.host.parseTime(ts) == Some(d)
    ensures Deserialize(env, TimedType(), Obj([Entry("a", Str(ts)), Entry("c", Int(1))]))
            == Err(Many([Invalid(UnexpectedField("c"), [])]))
  {
    var t := TimedType();
    TimedShape(ts);
    var a := Entry("a", Str(ts));
    var u := Invalid(UnexpectedField("c"), []);
    assert Deserialize(env, Concrete(DateTimeType), Str(ts)) == Ok(Time(d));
    GoodFieldNoErrors(env, t, a, Time(d));
    StructFailure(env, t, [a, Entry("c", Int(1))], [], [u], []);
    assert [] + [u] + [] == [u];
  }

  /** A lone declared entry whose value deserializes contributes no nested
      error. */
  lemma GoodFieldNoErrors(env: Env, t: Type, e: Entry, w: Value)
    requires t.StructOf? && Declared(t, e.key)
    requires Deserialize(env, SpaceOf(t, e.key), e.val) == Ok(w)
    ensures Relocated(FieldChildren(env, t, [e]), KeySegments([e])) == []
  {
    assert FieldChildren(env, t, [e]) == [Ok(w)];
    assert KeySegments([e]) == [Key(e.key)];
    RelocatedSingle(Ok(w), Key(e.key));
  }
}
