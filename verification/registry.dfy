/** The type registry of core.py: type classes, the implementation records
    built from them, registration and lookup. */
module Registry {
  import opened Wrappers
  import opened Failures

  /** The classes without their own `__init__`: each becomes one concrete type. */
  datatype LeafClass =
    | JsonType | IntegerType | DecimalType | StringType | BooleanType
    | DateTimeType | SchemaType | ColorType

  /** The classes with an `__init__(T, param)`: each is a generic that needs a parameter. */
  datatype GenericClass = ArrayType | MapType | StructType | NullableType

  datatype TypeClass = Leaf(leaf: LeafClass) | Generic(generic: GenericClass)

  /** Which members each class body defines (the `props` of
      `implementation_from_class`). */
  predicate DefinesInit(c: TypeClass)
  {
    c.Generic?
  }

  predicate DefinesCheck(c: LeafClass)
  {
    match c
    case JsonType | IntegerType | DecimalType | BooleanType | SchemaType | ColorType => true
    case StringType | DateTimeType => false
  }

  predicate DefinesDeserialize(c: LeafClass)
  {
    c == StringType || c == DateTimeType
  }

  predicate DefinesSerialize(c: LeafClass)
  {
    c == DateTimeType
  }

  /** Every built-in leaf class can decide membership one way or the other,
      so for them the NotImplementedError branches of `T.check` and
      `T.deserialize` are never taken. A class a user registers with neither
      member is outside the closed set of classes modelled here. */
  lemma EveryLeafChecksOrDeserializes(c: LeafClass)
    ensures DefinesCheck(c) || DefinesDeserialize(c)
  {
  }

  /** The two record shapes: `Implementation` still needs its parameter,
      `BoundImplementation` is ready to use. */
  datatype Impl = Implementation(param: GenericClass) | BoundImplementation(cls: LeafClass)

  /** `implementation_from_class`: bound exactly when the class has no
      `__init__` of its own. */
  function ImplementationFromClass(c: TypeClass): (imp: Impl)
    ensures imp.BoundImplementation? <==> !DefinesInit(c)
    ensures imp.BoundImplementation? ==> c == Leaf(imp.cls)
    ensures imp.Implementation? ==> c == Generic(imp.param)
  {
    if DefinesInit(c) then Implementation(c.generic) else BoundImplementation(c.leaf)
  }

  /** The class-level `types` dict, shared by every subclass of `T`. */
  type Types = map<string, Impl>

  /** What name lookup consults: the registry, then `get_type_hook`. */
  datatype Resolver = Resolver(types: Types, hook: string -> Option<Impl>)

  /** `T.register(name)(cls)`: the name now denotes the class's
      implementation; every other name is untouched. */
  function Register(types: Types, name: string, cls: TypeClass): (r: Types)
    ensures name in r && r[name] == ImplementationFromClass(cls)
    ensures forall n :: n != name ==> (n in r <==> n in types)
    ensures forall n :: n != name && n in types ==> r[n] == types[n]
  {
    types[name := ImplementationFromClass(cls)]
  }

  /** Registering a name twice keeps only the later class. */
  lemma RegisterLaterWins(types: Types, name: string, first: TypeClass, second: TypeClass)
    ensures Register(Register(types, name, first), name, second) == Register(types, name, second)
  {
  }

  /** The classes core.py and then examples.py register, in decorator order. */
  function RegistrationOrder(): seq<TypeClass>
  {
    [Generic(ArrayType), Generic(MapType), Generic(StructType), Leaf(JsonType),
     Leaf(IntegerType), Leaf(DecimalType), Leaf(StringType), Leaf(BooleanType),
     Leaf(DateTimeType), Leaf(SchemaType), Leaf(ColorType), Generic(NullableType)]
  }

  /** Running the decorators of `cs` one after another, each under its name. */
  function RegisterAll(types: Types, cs: seq<TypeClass>): Types
    decreases |cs|
  {
    if |cs| == 0 then types
    else RegisterAll(Register(types, NameOf(cs[0]), cs[0]), cs[1..])
  }

  /** The registry after core.py and examples.py have run their decorators. */
  function DefaultTypes(): Types
  {
    RegisterAll(map[], RegistrationOrder())
  }

  /** The hook of the base class: it finds nothing. */
  function NoHook(name: string): (r: Option<Impl>)
    ensures r.None?
  {
    None
  }

  /** The name each class is registered under. */
  function NameOf(c: TypeClass): string
  {
    match c
    case Generic(ArrayType) => "Array"
    case Generic(MapType) => "Map"
    case Generic(StructType) => "Struct"
    case Generic(NullableType) => "Nullable"
    case Leaf(JsonType) => "JSON"
    case Leaf(IntegerType) => "Integer"
    case Leaf(DecimalType) => "Decimal"
    case Leaf(StringType) => "String"
    case Leaf(BooleanType) => "Boolean"
    case Leaf(DateTimeType) => "DateTime"
    case Leaf(SchemaType) => "Schema"
    case Leaf(ColorType) => "Color"
  }

  /** A registry in which every class is found under its own name. */
  ghost predicate Standard(types: Types)
  {
    forall c :: NameOf(c) in types && types[NameOf(c)] == ImplementationFromClass(c)
  }

  lemma NameOfInjective(c: TypeClass, d: TypeClass)
    ensures NameOf(c) == NameOf(d) ==> c == d
  {
  }

  /** After registering `cs`, each of them is found under its name. */
  lemma {:induction false} RegisterAllFinds(types: Types, cs: seq<TypeClass>)
    ensures forall c :: c in cs ==>
              (NameOf(c) in RegisterAll(types, cs)
               && RegisterAll(types, cs)[NameOf(c)] == ImplementationFromClass(c))
    decreases |cs|
  {
    if |cs| > 0 {
      var next := Register(types, NameOf(cs[0]), cs[0]);
      RegisterAllFinds(next, cs[1..]);
      forall c | c in cs
        ensures NameOf(c) in RegisterAll(types, cs)
        ensures RegisterAll(types, cs)[NameOf(c)] == ImplementationFromClass(c)
      {
        if c !in cs[1..] {
          assert c == cs[0];
          forall d | d in cs[1..] ensures NameOf(d) != NameOf(c) {
            NameOfInjective(c, d);
          }
          RegisterAllKeeps(next, cs[1..], NameOf(c));
        }
      }
    }
  }

  /** A name none of `cs` carries keeps its old binding, or its absence. */
  lemma {:induction false} RegisterAllKeeps(types: Types, cs: seq<TypeClass>, n: string)
    requires forall c :: c in cs ==> NameOf(c) != n
    ensures n in RegisterAll(types, cs) <==> n in types
    ensures n in types ==> RegisterAll(types, cs)[n] == types[n]
    decreases |cs|
  {
    if |cs| > 0 {
      assert NameOf(cs[0]) != n;
      RegisterAllKeeps(Register(types, NameOf(cs[0]), cs[0]), cs[1..], n);
    }
  }

  /** Every class is among the registered ones. */
  lemma Listed(c: TypeClass)
    ensures c in RegistrationOrder()
  {
    var order := RegistrationOrder();
    match c
    case Generic(ArrayType) => assert c == order[0];
    case Generic(MapType) => assert c == order[1];
    case Generic(StructType) => assert c == order[2];
    case Leaf(JsonType) => assert c == order[3];
    case Leaf(IntegerType) => assert c == order[4];
    case Leaf(DecimalType) => assert c == order[5];
    case Leaf(StringType) => assert c == order[6];
    case Leaf(BooleanType) => assert c == order[7];
    case Leaf(DateTimeType) => assert c == order[8];
    case Leaf(SchemaType) => assert c == order[9];
    case Leaf(ColorType) => assert c == order[10];
    case Generic(NullableType) => assert c == order[11];
  }

  /** The default registry finds a class under its name. */
  lemma DefaultFinds(c: TypeClass)
    ensures NameOf(c) in DefaultTypes() && DefaultTypes()[NameOf(c)] == ImplementationFromClass(c)
  {
    Listed(c);
    RegisterAllFinds(map[], RegistrationOrder());
  }

  /** The default registry holds every class, each under its name. */
  lemma DefaultTypesStandard()
    ensures Standard(DefaultTypes())
  {
    forall c
      ensures NameOf(c) in DefaultTypes() && DefaultTypes()[NameOf(c)] == ImplementationFromClass(c)
    {
      DefaultFinds(c);
    }
  }

  /** ... and nothing else: every name it holds is some modelled class's
      name. The real registry also holds "PythonObject", which examples.py
      registers and which is not part of this model. */
  lemma DefaultTypesExact(n: string)
    ensures n in DefaultTypes() <==> exists c :: NameOf(c) == n
  {
    if c :| NameOf(c) == n {
      DefaultFinds(c);
    } else {
      RegisterAllKeeps(map[], RegistrationOrder(), n);
    }
  }

  /** `get_type_or_fail`: the registry first; the hook only for a name the
      registry lacks; "Unknown type" when both come up empty. */
  function Lookup(rv: Resolver, name: string): (r: Result<Impl, SchemaError>)
    ensures name in rv.types ==> r == Ok(rv.types[name])
    ensures name !in rv.types ==> (r.Ok? <==> rv.hook(name).Some?)
    ensures name !in rv.types && r.Ok? ==> r.value == rv.hook(name).value
    ensures r.Err? ==> r.error == UnknownType(name)
  {
    if name in rv.types then Ok(rv.types[name])
    else match rv.hook(name)
      case Some(imp) => Ok(imp)
      case None => Err(UnknownType(name))
  }
}
