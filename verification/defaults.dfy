/** The default derivations of `T`: check from deserialize, deserialize from
    check, serialize as the identity; the Schema type's check; and the gap
    in `T.check` as written. */
module Defaults {
  import opened Wrappers
  import opened Json
  import opened Failures
  import opened ErrorProtocol
  import opened Registry
  import opened Resolution
  import opened Conversion

  /** A leaf with a check but no deserialize of its own deserializes a member
      to itself and anything else to a single error at the root, raised as a
      bare `Invalid`. */
  lemma DeserializeFromCheck(env: Env, c: LeafClass, v: Value)
    requires !DefinesDeserialize(c)
    ensures var r := Deserialize(env, Concrete(c), v);
            && (r.Ok? <==> LeafCheck(env, c, v))
            && (r.Ok? ==> r.value == v)
            && (r.Err? ==> r.error.Single? && r.error.invalid.location == [])
  {
  }

  /** A leaf with no serialize of its own serializes every value to itself. */
  lemma SerializeDefaultsToIdentity(env: Env, c: LeafClass, v: Value)
    requires !DefinesSerialize(c)
    ensures Serialize(env, Concrete(c), v) == v
  {
  }

  /** Membership and deserialization agree on every type: a value is accepted
      by `check` exactly when `deserialize` succeeds on it. */
  lemma CheckAgreesWithDeserialize(env: Env, t: Type, v: Value)
    ensures Check(env, t, v) <==> Deserialize(env, t, v).Ok?
  {
    if t.Concrete? && DefinesCheck(t.cls) {
      assert !DefinesDeserialize(t.cls);
    }
  }

  /** The Schema type accepts exactly the values that resolve as schemas
      against the shared registry and the base class's hook, which finds
      nothing. */
  lemma SchemaCheckIsResolution(env: Env, v: Value)
    ensures Check(env, Concrete(SchemaType), v) <==> Resolve(Resolver(env.resolver.types, NoHook), v).Ok?
  {
  }

  /** So a name only a subclass's hook knows resolves for that subclass, yet
      the Schema type refuses it. */
  lemma SchemaCheckMissesHookTypes(env: Env, name: string)
    requires name !in env.resolver.types && env.resolver.hook(name) == Some(BoundImplementation(JsonType))
    ensures Resolve(env.resolver, Str(name)) == Ok(Concrete(JsonType))
    ensures !Check(env, Concrete(SchemaType), Str(name))
  {
    ResolveName(env.resolver, name);
    ResolveName(Resolver(env.resolver.types, NoHook), name);
  }

  /** On a leaf, `T.check` as written already answers, and answers as the
      model's check does: leaves raise only bare `Invalid`s. */
  lemma CheckAsWrittenOnLeaves(env: Env, c: LeafClass, v: Value)
    ensures CheckAsWritten(env, Concrete(c), v) == Answer(Check(env, Concrete(c), v))
  {
  }

  /** On Array, Map and Struct, `T.check` as written never answers False: a
      failing deserialize raises `util.Errors`, which is not an `Invalid`,
      and escapes. */
  lemma CheckAsWrittenOnComposites(env: Env, t: Type, v: Value)
    requires t.ArrayOf? || t.MapOf? || t.StructOf?
    ensures CheckAsWritten(env, t, v) != Answer(false)
    ensures CheckAsWritten(env, t, v).Escapes? <==> !Check(env, t, v)
  {
  }

  /** `t({"Array": "Integer"}).check(1)` raises instead of returning False,
      and so does a Nullable around it; the corrected check says False. */
  lemma CheckEscapesExample(env: Env)
    ensures CheckAsWritten(env, ArrayOf(Concrete(IntegerType)), Int(1)) == Escapes([Invalid(MustBeList, [])])
    ensures CheckAsWritten(env, NullableOf(ArrayOf(Concrete(IntegerType))), Int(1)) == Escapes([Invalid(MustBeList, [])])
    ensures !Check(env, ArrayOf(Concrete(IntegerType)), Int(1))
    ensures !Check(env, NullableOf(ArrayOf(Concrete(IntegerType))), Int(1))
  {
  }
}
