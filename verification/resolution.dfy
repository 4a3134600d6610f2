/** Schema resolution: `T.__init__` and `bind_generic` of core.py, and the
    parameter constructors of the generic classes. */
module Resolution {
  import opened Wrappers
  import opened Json
  import opened Failures
  import opened Registry

  /** A declared struct field and the type its schema resolved to. */
  datatype Field = Field(name: string, space: Type)

  /** A resolved type instance: a bound leaf class, or a generic bound to the
      state its constructor built (the child instance, or the field types). */
  datatype Type =
    | Concrete(cls: LeafClass)
    | ArrayOf(space: Type)
    | MapOf(space: Type)
    | StructOf(required: seq<Field>, optional: seq<Field>)
    | NullableOf(child: Type)

  function Names(fields: seq<Field>): (ns: seq<string>)
    ensures |ns| == |fields|
    ensures forall i :: 0 <= i < |fields| ==> ns[i] == fields[i].name
  {
    seq(|fields|, i requires 0 <= i < |fields| => fields[i].name)
  }

  /** `self.req.isdisjoint(self.opt)` fails on a shared name. */
  predicate Disjoint(a: seq<Field>, b: seq<Field>)
  {
    forall n :: n in Names(a) ==> n !in Names(b)
  }

  /** The shape resolution guarantees: no struct, however deeply nested,
      declares a name both required and optional. */
  ghost predicate WellFormed(t: Type)
  {
    match t
    case Concrete(_) => true
    case ArrayOf(s) => WellFormed(s)
    case MapOf(s) => WellFormed(s)
    case NullableOf(c) => WellFormed(c)
    case StructOf(req, opt) =>
      && Disjoint(req, opt)
      && (forall i :: 0 <= i < |req| ==> WellFormed(req[i].space))
      && (forall i :: 0 <= i < |opt| ==> WellFormed(opt[i].space))
  }

  /** `T(schema)`: a string must name a bound implementation; a one-key object
      must name a generic, which is then bound to the key's value; anything
      else is not a schema. */
  function Resolve(rv: Resolver, schema: Value): (r: Result<Type, SchemaError>)
    ensures r.Ok? ==> WellFormed(r.value)
    decreases schema, 0, 0
  {
    match schema
    case Str(name) =>
      (match Lookup(rv, name)
       case Err(e) => Err(e)
       case Ok(BoundImplementation(c)) => Ok(Concrete(c))
       case Ok(Implementation(_)) => Err(NotConcrete(name)))
    case Obj(entries) =>
      if |entries| != 1 then Err(UnrecognizedSchema)
      else
        (match Lookup(rv, entries[0].key)
         case Err(e) => Err(e)
         case Ok(BoundImplementation(_)) => Err(NotGeneric(entries[0].key))
         case Ok(Implementation(g)) => BindGeneric(rv, g, entries[0].val))
    case _ => Err(UnrecognizedSchema)
  }

  /** `bind_generic`: run the class's constructor on the parameter. Array,
      Map and Nullable resolve the parameter as their child schema; Struct
      validates its descriptor. */
  function BindGeneric(rv: Resolver, g: GenericClass, param: Value): (r: Result<Type, SchemaError>)
    ensures r.Ok? ==> WellFormed(r.value)
    decreases param, 1, 0
  {
    match g
    case ArrayType => (match Resolve(rv, param) case Ok(t) => Ok(ArrayOf(t)) case Err(e) => Err(e))
    case MapType => (match Resolve(rv, param) case Ok(t) => Ok(MapOf(t)) case Err(e) => Err(e))
    case NullableType => (match Resolve(rv, param) case Ok(t) => Ok(NullableOf(t)) case Err(e) => Err(e))
    case StructType =>
      if !param.Obj? || "required" !in Keys(param.entries) || "optional" !in Keys(param.entries) then
        Err(StructMalformed)
      else
        // `for kind in expected` walks a set; this is the required-first order
        var req := param.entries[Find(param.entries, "required")].val;
        var opt := param.entries[Find(param.entries, "optional")].val;
        if !req.Obj? then Err(StructFieldsNotObject)
        else match ResolveFields(rv, req, 0)
          case Err(e) => Err(e)
          case Ok(rf) =>
            if !opt.Obj? then Err(StructFieldsNotObject)
            else match ResolveFields(rv, opt, 0)
              case Err(e) => Err(e)
              case Ok(of) => if Disjoint(rf, of) then Ok(StructOf(rf, of)) else Err(StructOverlap)
  }

  /** Resolves the field schemas of a descriptor object from entry `i` on,
      failing with the first error met. */
  function ResolveFields(rv: Resolver, obj: Value, i: nat): (r: Result<seq<Field>, SchemaError>)
    requires obj.Obj? && i <= |obj.entries|
    ensures r.Ok? ==> forall j :: 0 <= j < |r.value| ==> WellFormed(r.value[j].space)
    decreases obj, 0, |obj.entries| - i
  {
    if i == |obj.entries| then Ok([])
    else
      match Resolve(rv, obj.entries[i].val)
      case Err(e) => Err(e)
      case Ok(t) =>
        match ResolveFields(rv, obj, i + 1)
        case Err(e) => Err(e)
        case Ok(rest) => Ok([Field(obj.entries[i].key, t)] + rest)
  }

  /** The fields resolved from entry `i` on carry the entries' keys in order,
      each with the type its schema resolves to; and they resolve exactly
      when every one of those schemas does. */
  lemma ResolveFieldsSpec(rv: Resolver, obj: Value, i: nat)
    requires obj.Obj? && i <= |obj.entries|
    ensures var r := ResolveFields(rv, obj, i);
            && (r.Ok? ==> Names(r.value) == Keys(obj.entries)[i..])
            && (r.Ok? ==> forall j :: 0 <= j < |r.value| ==>
                  Resolve(rv, obj.entries[i + j].val) == Ok(r.value[j].space))
            && (r.Ok? <==> forall j :: i <= j < |obj.entries| ==> Resolve(rv, obj.entries[j].val).Ok?)
  {
    ResolveFieldsTotal(rv, obj, i);
    var r := ResolveFields(rv, obj, i);
    if r.Ok? {
      ResolveFieldsPointwise(rv, obj, i);
      assert Names(r.value) == Keys(obj.entries)[i..];
    }
  }

  lemma {:induction false} ResolveFieldsTotal(rv: Resolver, obj: Value, i: nat)
    requires obj.Obj? && i <= |obj.entries|
    ensures ResolveFields(rv, obj, i).Ok? <==>
              forall j :: i <= j < |obj.entries| ==> Resolve(rv, obj.entries[j].val).Ok?
    decreases |obj.entries| - i
  {
    if i < |obj.entries| {
      ResolveFieldsTotal(rv, obj, i + 1);
    }
  }

  /** Field `j` of the result is entry `i + j`'s key with the type its schema
      resolves to. */
  lemma {:induction false} ResolveFieldsPointwise(rv: Resolver, obj: Value, i: nat)
    requires obj.Obj? && i <= |obj.entries|
    requires ResolveFields(rv, obj, i).Ok?
    ensures var fs := ResolveFields(rv, obj, i).value;
            && |fs| == |obj.entries| - i
            && forall j :: 0 <= j < |fs| ==>
                 && fs[j].name == obj.entries[i + j].key
                 && Resolve(rv, obj.entries[i + j].val) == Ok(fs[j].space)
    decreases |obj.entries| - i
  {
    if i < |obj.entries| {
      ResolveFieldsPointwise(rv, obj, i + 1);
      var fs := ResolveFields(rv, obj, i).value;
      var rest := ResolveFields(rv, obj, i + 1).value;
      assert fs == [Field(obj.entries[i].key, Resolve(rv, obj.entries[i].val).value)] + rest;
      forall j | 1 <= j < |fs|
        ensures fs[j].name == obj.entries[i + j].key
        ensures Resolve(rv, obj.entries[i + j].val) == Ok(fs[j].space)
      {
        assert fs[j] == rest[j - 1];
        assert i + j == (i + 1) + (j - 1);
      }
    }
  }

  /** A string schema resolves exactly when its name looks up to a bound
      implementation; a generic's name is "Not a concrete type" and an
      unknown name is "Unknown type". */
  lemma ResolveName(rv: Resolver, name: string)
    ensures var r := Resolve(rv, Str(name));
            && (r.Ok? <==> Lookup(rv, name).Ok? && Lookup(rv, name).value.BoundImplementation?)
            && (r.Ok? ==> r.value == Concrete(Lookup(rv, name).value.cls))
            && (Lookup(rv, name).Ok? && Lookup(rv, name).value.Implementation? ==> r == Err(NotConcrete(name)))
            && (Lookup(rv, name).Err? ==> r == Err(UnknownType(name)))
  {
  }

  /** A one-key object resolves exactly when its key looks up to a generic and
      that generic accepts the parameter; a concrete type's name is "Not a
      generic type". */
  lemma ResolveGeneric(rv: Resolver, name: string, param: Value)
    ensures var r := Resolve(rv, Obj([Entry(name, param)]));
            && (Lookup(rv, name).Ok? && Lookup(rv, name).value.Implementation? ==>
                  r == BindGeneric(rv, Lookup(rv, name).value.param, param))
            && (Lookup(rv, name).Ok? && Lookup(rv, name).value.BoundImplementation? ==>
                  r == Err(NotGeneric(name)))
            && (Lookup(rv, name).Err? ==> r == Err(UnknownType(name)))
  {
  }

  /** Numbers, booleans, null, lists, timestamps and objects with other than
      one key are "Unrecognized schema", whatever the registry holds. */
  lemma ResolveUnrecognized(rv: Resolver, schema: Value)
    requires !schema.Str?
    requires !(schema.Obj? && |schema.entries| == 1)
    ensures Resolve(rv, schema) == Err(UnrecognizedSchema)
  {
  }

  /** What `implementation_from_class` decides, seen from `T(schema)`: in a
      registry holding the standard classes, a class without `__init__` is
      usable by its name alone and refuses a parameter, and a class with one
      is usable only with a parameter, which its constructor then binds. */
  lemma ClassKindDecidesUse(rv: Resolver, c: TypeClass, param: Value)
    requires Standard(rv.types)
    ensures Resolve(rv, Str(NameOf(c))).Ok? <==> !DefinesInit(c)
    ensures !DefinesInit(c) ==> Resolve(rv, Str(NameOf(c))) == Ok(Concrete(c.leaf))
    ensures !DefinesInit(c) ==> Resolve(rv, Obj([Entry(NameOf(c), param)])) == Err(NotGeneric(NameOf(c)))
    ensures DefinesInit(c) ==> Resolve(rv, Str(NameOf(c))) == Err(NotConcrete(NameOf(c)))
    ensures DefinesInit(c) ==> Resolve(rv, Obj([Entry(NameOf(c), param)])) == BindGeneric(rv, c.generic, param)
  {
    assert Lookup(rv, NameOf(c)) == Ok(ImplementationFromClass(c));
    ResolveName(rv, NameOf(c));
    ResolveGeneric(rv, NameOf(c), param);
  }

  /** Array, Map and Nullable accept exactly the parameters that resolve, and
      own the child type they resolve to. */
  lemma BindChild(rv: Resolver, g: GenericClass, param: Value)
    requires g != StructType
    ensures BindGeneric(rv, g, param).Ok? <==> Resolve(rv, param).Ok?
    ensures BindGeneric(rv, g, param).Ok? ==>
              BindGeneric(rv, g, param).value ==
                (match g
                 case ArrayType => ArrayOf(Resolve(rv, param).value)
                 case MapType => MapOf(Resolve(rv, param).value)
                 case _ => NullableOf(Resolve(rv, param).value))
  {
  }

  /** The entries of the descriptor's "required" or "optional" member. */
  function Member(param: Value, kind: string): Value
    requires param.Obj? && kind in Keys(param.entries)
  {
    param.entries[Find(param.entries, kind)].val
  }

  /** An object holding both "required" and "optional", each an object. */
  predicate Descriptor(param: Value)
  {
    && param.Obj?
    && "required" in Keys(param.entries) && "optional" in Keys(param.entries)
    && Member(param, "required").Obj? && Member(param, "optional").Obj?
  }

  /** Every field schema of a descriptor member resolves. */
  predicate SchemasResolve(rv: Resolver, fields: Value)
    requires fields.Obj?
  {
    forall i :: 0 <= i < |fields.entries| ==> Resolve(rv, fields.entries[i].val).Ok?
  }

  /** What the Struct constructor demands of its parameter. */
  predicate Acceptable(rv: Resolver, param: Value)
  {
    && Descriptor(param)
    && SchemasResolve(rv, Member(param, "required"))
    && SchemasResolve(rv, Member(param, "optional"))
    && forall k :: k in Keys(Member(param, "required").entries) ==> k !in Keys(Member(param, "optional").entries)
  }

  /** The Struct constructor succeeds exactly when the parameter is an object
      holding both "required" and "optional" (other keys are tolerated), both
      are objects, every field schema resolves and no name is declared in
      both; the type then keeps the two field lists in descriptor order. */
  lemma BindStruct(rv: Resolver, param: Value)
    ensures BindGeneric(rv, StructType, param).Ok? <==> Acceptable(rv, param)
    ensures BindGeneric(rv, StructType, param).Ok? ==>
              var t := BindGeneric(rv, StructType, param).value;
              && Descriptor(param)
              && Names(t.required) == Keys(Member(param, "required").entries)
              && Names(t.optional) == Keys(Member(param, "optional").entries)
  {
    if Descriptor(param) {
      var req := Member(param, "required");
      var opt := Member(param, "optional");
      var rr := ResolveFields(rv, req, 0);
      var ro := ResolveFields(rv, opt, 0);
      DescriptorOutcome(rv, param);
      assert rr.Ok? <==> SchemasResolve(rv, req) by {
        ResolveFieldsTotal(rv, req, 0);
      }
      assert ro.Ok? <==> SchemasResolve(rv, opt) by {
        ResolveFieldsTotal(rv, opt, 0);
      }
      if rr.Ok? && ro.Ok? {
        FieldNames(rv, req);
        FieldNames(rv, opt);
        assert Disjoint(rr.value, ro.value) <==>
               forall k :: k in Keys(req.entries) ==> k !in Keys(opt.entries);
      }
    } else {
      assert BindGeneric(rv, StructType, param).Err?;
    }
  }

  /** A descriptor binds when both members resolve and do not overlap. */
  lemma DescriptorOutcome(rv: Resolver, param: Value)
    requires Descriptor(param)
    ensures var rr := ResolveFields(rv, Member(param, "required"), 0);
            var ro := ResolveFields(rv, Member(param, "optional"), 0);
            var r := BindGeneric(rv, StructType, param);
            && (r.Ok? <==> rr.Ok? && ro.Ok? && Disjoint(rr.value, ro.value))
            && (r.Ok? ==> r.value == StructOf(rr.value, ro.value))
  {
  }

  /** The resolved fields of a member carry its keys, in order. */
  lemma FieldNames(rv: Resolver, obj: Value)
    requires obj.Obj? && ResolveFields(rv, obj, 0).Ok?
    ensures Names(ResolveFields(rv, obj, 0).value) == Keys(obj.entries)
  {
    ResolveFieldsSpec(rv, obj, 0);
    assert Keys(obj.entries)[0..] == Keys(obj.entries);
  }

  /** Whatever else it holds, a descriptor that declares some name both
      required and optional never yields a Struct type. */
  lemma StructOverlapRejected(rv: Resolver, param: Value, k: string)
    requires param.Obj? && "required" in Keys(param.entries) && "optional" in Keys(param.entries)
    requires Member(param, "required").Obj? && Member(param, "optional").Obj?
    requires k in Keys(Member(param, "required").entries)
    requires k in Keys(Member(param, "optional").entries)
    ensures BindGeneric(rv, StructType, param).Err?
  {
    BindStruct(rv, param);
  }

  /** The schema that names a type through the standard names: the inverse of
      resolution. */
  function SchemaOf(t: Type): Value
  {
    match t
    case Concrete(c) => Str(NameOf(Leaf(c)))
    case ArrayOf(s) => Obj([Entry("Array", SchemaOf(s))])
    case MapOf(s) => Obj([Entry("Map", SchemaOf(s))])
    case NullableOf(c) => Obj([Entry("Nullable", SchemaOf(c))])
    case StructOf(req, opt) =>
      Obj([Entry("Struct", Obj([
        Entry("required", Obj(seq(|req|, i requires 0 <= i < |req| => Entry(req[i].name, SchemaOf(req[i].space))))),
        Entry("optional", Obj(seq(|opt|, i requires 0 <= i < |opt| => Entry(opt[i].name, SchemaOf(opt[i].space)))))]))])
  }

  /** Under a registry that finds every class by its own name, resolving the
      schema of any well-formed type gives that type back. */
  lemma {:induction false} ResolveSchemaOf(rv: Resolver, t: Type)
    requires Standard(rv.types)
    requires WellFormed(t)
    ensures Resolve(rv, SchemaOf(t)) == Ok(t)
    decreases t, 1, 0
  {
    match t
    case Concrete(c) =>
      assert rv.types[NameOf(Leaf(c))] == ImplementationFromClass(Leaf(c));
    case ArrayOf(s) =>
      assert rv.types[NameOf(Generic(ArrayType))] == ImplementationFromClass(Generic(ArrayType));
      ResolveSchemaOf(rv, s);
    case MapOf(s) =>
      assert rv.types[NameOf(Generic(MapType))] == ImplementationFromClass(Generic(MapType));
      ResolveSchemaOf(rv, s);
    case NullableOf(c) =>
      assert rv.types[NameOf(Generic(NullableType))] == ImplementationFromClass(Generic(NullableType));
      ResolveSchemaOf(rv, c);
    case StructOf(req, opt) =>
      ResolveStructSchema(rv, t);
  }

  lemma {:induction false} ResolveStructSchema(rv: Resolver, t: Type)
    requires Standard(rv.types)
    requires WellFormed(t) && t.StructOf?
    ensures Resolve(rv, SchemaOf(t)) == Ok(t)
    decreases t, 0, |t.required| + |t.optional| + 1
  {
    assert rv.types[NameOf(Generic(StructType))] == ImplementationFromClass(Generic(StructType));
    var param := SchemaOf(t).entries[0].val;
    ResolveFieldSchemas(rv, t, t.required, 0);
    ResolveFieldSchemas(rv, t, t.optional, 0);
    BindDescriptor(rv, param.entries[0].val, param.entries[1].val, t.required, t.optional);
  }

  /** A descriptor whose two members resolve to disjoint field lists binds to
      the struct of those lists. */
  lemma BindDescriptor(rv: Resolver, required: Value, optional: Value, req: seq<Field>, opt: seq<Field>)
    requires required.Obj? && optional.Obj?
    requires ResolveFields(rv, required, 0) == Ok(req)
    requires ResolveFields(rv, optional, 0) == Ok(opt)
    requires Disjoint(req, opt)
    ensures BindGeneric(rv, StructType, Obj([Entry("required", required), Entry("optional", optional)]))
            == Ok(StructOf(req, opt))
  {
    var param := Obj([Entry("required", required), Entry("optional", optional)]);
    assert Keys(param.entries) == ["required", "optional"];
    assert Find(param.entries, "required") == 0;
    assert Find(param.entries, "optional") == 1;
  }

  lemma {:induction false} ResolveFieldSchemas(rv: Resolver, t: Type, fs: seq<Field>, i: nat)
    requires Standard(rv.types)
    requires WellFormed(t) && t.StructOf? && (fs == t.required || fs == t.optional)
    requires i <= |fs|
    ensures var obj := Obj(seq(|fs|, j requires 0 <= j < |fs| => Entry(fs[j].name, SchemaOf(fs[j].space))));
            ResolveFields(rv, obj, i) == Ok(fs[i..])
    decreases t, 0, |fs| - i
  {
    var obj := Obj(seq(|fs|, j requires 0 <= j < |fs| => Entry(fs[j].name, SchemaOf(fs[j].space))));
    if i < |fs| {
      ResolveSchemaOf(rv, fs[i].space);
      ResolveFieldSchemas(rv, t, fs, i + 1);
      ResolveFieldsStep(rv, obj, i, fs[i], fs[i + 1..]);
      assert fs[i..] == [fs[i]] + fs[i + 1..];
    } else {
      assert fs[i..] == [];
    }
  }

  /** One step of the field loop: a resolved entry in front of the rest. */
  lemma ResolveFieldsStep(rv: Resolver, obj: Value, i: nat, f: Field, rest: seq<Field>)
    requires obj.Obj? && i < |obj.entries|
    requires obj.entries[i].key == f.name && Resolve(rv, obj.entries[i].val) == Ok(f.space)
    requires ResolveFields(rv, obj, i + 1) == Ok(rest)
    ensures ResolveFields(rv, obj, i) == Ok([f] + rest)
  {
  }
}
