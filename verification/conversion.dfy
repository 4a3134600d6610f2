/** The type instance of core.py: `T.check`, `T.deserialize` and
    `T.serialize` with their default derivations, the leaf classes, and the
    composite deserializers of Array, Map, Struct and Nullable. */
module Conversion {
  import opened Wrappers
  import opened Json
  import opened Failures
  import opened ErrorProtocol
  import opened Registry
  import opened Resolution
  import opened Aggregate
  import ColorPattern

  /** Collaborators outside the core: the number tests of the compat module
      and the RFC 3339 codec. */
  datatype Host = Host(
    isInteger: Value -> bool,          // compat.test_integer
    isDecimal: Value -> bool,          // compat.test_long
    parseTime: string -> Option<DateTime>,
    formatTime: DateTime -> string)

  /** What a type instance can reach: the resolver (for Schema) and the host. */
  datatype Env = Env(resolver: Resolver, host: Host)

  // ---------------------------------------------------------------- leaves

  /** `String`'s deserialize: text is accepted as it is, anything else is
      "Not a string". */
  function StringDeserialize(v: Value): Outcome
  {
    if v.Str? then Ok(v) else Err(Single(Invalid(NotAString, [])))
  }

  /** The `check` member of the leaf classes that define one. Schema's check
      calls `T(value)` with the class it was registered on: the base `T`,
      whose hook finds nothing, whichever subclass is doing the checking. */
  function LeafCheck(env: Env, c: LeafClass, v: Value): (b: bool)
    requires DefinesCheck(c)
    ensures c == JsonType ==> b
    ensures c == BooleanType ==> (b <==> v.Bool?)
    ensures c == ColorType && b ==> StringDeserialize(v).Ok?
    ensures c == SchemaType ==> (b <==> Resolve(Resolver(env.resolver.types, NoHook), v).Ok?)
  {
    match c
    case JsonType => true
    case IntegerType => env.host.isInteger(v)
    case DecimalType => env.host.isDecimal(v)
    case BooleanType => v.Bool?
    case SchemaType => Resolve(Resolver(env.resolver.types, NoHook), v).Ok?
    // `t("String").check(value)`, i.e. String's derived check, then the pattern
    case ColorType => StringDeserialize(v).Ok? && ColorPattern.Matches(v.s)
  }

  /** The `deserialize` member of the leaf classes that define one. */
  function LeafDeserialize(env: Env, c: LeafClass, v: Value): (r: Outcome)
    requires DefinesDeserialize(c)
    ensures r.Ok? ==> v.Str?
    ensures r.Err? ==> r.error.Single? && r.error.invalid.location == []
    ensures c == StringType && r.Ok? ==> r.value == v
    ensures c == DateTimeType && r.Ok? ==> r.value.Time? && env.host.parseTime(v.s) == Some(r.value.t)
  {
    match c
    case StringType => StringDeserialize(v)
    case DateTimeType =>
      if v.Str? && env.host.parseTime(v.s).Some? then Ok(Time(env.host.parseTime(v.s).value))
      else Err(Single(Invalid(InvalidDateTime, [])))
  }

  /** The `serialize` member of the leaf classes that define one. A value
      that is not a timestamp makes the codec raise; the model passes it on. */
  function LeafSerialize(env: Env, c: LeafClass, v: Value): (w: Value)
    requires DefinesSerialize(c)
    ensures v.Time? ==> w.Str?
    ensures v.Time? && env.host.parseTime(w.s) == Some(v.t) ==> LeafDeserialize(env, c, w) == Ok(v)
    ensures !v.Time? ==> w == v
  {
    if v.Time? then Str(env.host.formatTime(v.t)) else v
  }

  // ------------------------------------------------- composite generator bodies

  /** The body of `ArrayType.deserialize`, given what each element gave. */
  function ArrayBody(v: Value, rs: seq<Outcome>): (tr: Trace)
    requires v.Arr? ==> |rs| == |v.items|
    ensures Sound(rs) ==> Disciplined(tr)
  {
    if !v.Arr? then Trace([Invalid(MustBeList, [])], None)
    else
      var g := Gather(rs, IndexSegments(|rs|));
      Trace(g.errors, if g.failed then None else Some(Arr(g.values)))
  }

  /** The body of `MapType.deserialize`, given what each value gave. */
  function MapBody(v: Value, rs: seq<Outcome>): (tr: Trace)
    requires v.Obj? ==> |rs| == |v.entries|
    ensures Sound(rs) ==> Disciplined(tr)
  {
    if !v.Obj? then Trace([Invalid(MustBeDict, [])], None)
    else
      var g := Gather(rs, KeySegments(v.entries));
      Trace(g.errors, if g.failed then None else Some(Obj(Rebuild(v.entries, g.values))))
  }

  /** A name in `self.schemas`, required or optional. */
  predicate Declared(t: Type, k: string)
    requires t.StructOf?
  {
    k in Names(t.required) || k in Names(t.optional)
  }

  /** The type a declared field's value is deserialized with. */
  function SpaceOf(t: Type, k: string): (s: Type)
    requires t.StructOf? && Declared(t, k)
    ensures s < t
  {
    var i := FindName(t.required, k);
    if i < |t.required| then t.required[i].space
    else t.optional[FindName(t.optional, k)].space
  }

  function FindName(fs: seq<Field>, k: string): (i: nat)
    ensures i <= |fs|
    ensures i < |fs| ==> fs[i].name == k
    ensures i == |fs| <==> k !in Names(fs)
    decreases |fs|
  {
    if |fs| == 0 then 0
    else if fs[0].name == k then 0
    else assert Names(fs[1..]) == Names(fs)[1..]; 1 + FindName(fs[1..], k)
  }

  /** "Missing field" at the struct's own location for each required name the
      input lacks. The source walks a Python set here, whose order is not
      defined; the model walks the descriptor order. */
  function MissingFields(required: seq<Field>, entries: seq<Entry>): (es: seq<Invalid>)
    decreases |required|
  {
    if |required| == 0 then []
    else
      (if required[0].name in Keys(entries) then [] else [Invalid(MissingField(required[0].name), [])])
      + MissingFields(required[1..], entries)
  }

  /** "Unexpected field" at the struct's own location for each input key that
      is not declared, in input order. */
  function UnexpectedFields(t: Type, entries: seq<Entry>): seq<Invalid>
    requires t.StructOf?
    decreases |entries|
  {
    if |entries| == 0 then []
    else
      (if Declared(t, entries[0].key) then [] else [Invalid(UnexpectedField(entries[0].key), [])])
      + UnexpectedFields(t, entries[1..])
  }

  /** The input entries whose keys are declared, in input order. */
  function DeclaredEntries(t: Type, entries: seq<Entry>): (ds: seq<Entry>)
    requires t.StructOf?
    ensures forall i :: 0 <= i < |ds| ==> Declared(t, ds[i].key)
    decreases |entries|
  {
    if |entries| == 0 then []
    else (if Declared(t, entries[0].key) then [entries[0]] else []) + DeclaredEntries(t, entries[1..])
  }

  /** The body of `StructType.deserialize`, given what each declared entry
      gave: missing fields, then unexpected fields, then the fields' own
      errors under their names. */
  function StructBody(t: Type, v: Value, rs: seq<Outcome>): (tr: Trace)
    requires t.StructOf?
    requires v.Obj? ==> |rs| == |DeclaredEntries(t, v.entries)|
    ensures Sound(rs) ==> Disciplined(tr)
  {
    if !v.Obj? then Trace([Invalid(DictExpected, [])], None)
    else
      var missing := MissingFields(t.required, v.entries);
      var unexpected := UnexpectedFields(t, v.entries);
      var declared := DeclaredEntries(t, v.entries);
      var g := Gather(rs, KeySegments(declared));
      var failed := |missing| > 0 || |unexpected| > 0 || g.failed;
      Trace(missing + unexpected + g.errors,
            if failed then None else Some(Obj(Rebuild(declared, g.values))))
  }

  // ------------------------------------------------------- the type instance

  /** `T.deserialize`. A leaf uses its own deserialize, or else its check
      (value unchanged on success, one error at the root otherwise). The
      composites run their generator bodies under ErrorGenerator; Nullable
      passes null through and hands everything else to its child. */
  function Deserialize(env: Env, t: Type, v: Value): (r: Outcome)
    ensures r.Err? ==> |Iterate(r.error)| > 0
    ensures r.Err? && (t.ArrayOf? || t.MapOf? || t.StructOf?) ==> r.error.Many?
    decreases t, 1, 0
  {
    match t
    case Concrete(c) =>
      if DefinesDeserialize(c) then LeafDeserialize(env, c, v)
      else if LeafCheck(env, c, v) then Ok(v)
      else Err(Single(Invalid(NotAMember, [])))
    case ArrayOf(_) =>
      FromGenerator(ArrayBody(v, if v.Arr? then DeserializeEach(env, t, v.items) else []))
    case MapOf(_) =>
      FromGenerator(MapBody(v, if v.Obj? then DeserializeEach(env, t, Vals(v.entries)) else []))
    case StructOf(_, _) =>
      FromGenerator(StructBody(t, v, if v.Obj? then DeserializeFields(env, t, DeclaredEntries(t, v.entries)) else []))
    case NullableOf(child) =>
      if v.Null? then Ok(Null) else Deserialize(env, child, v)
  }

  /** The child instance of an Array or Map applied to each element in turn. */
  function DeserializeEach(env: Env, t: Type, items: seq<Value>): (rs: seq<Outcome>)
    requires t.ArrayOf? || t.MapOf?
    ensures |rs| == |items|
    ensures forall i :: 0 <= i < |items| ==> rs[i] == Deserialize(env, t.space, items[i])
    ensures Sound(rs)
    decreases t, 0, |items|
  {
    if |items| == 0 then []
    else DeserializeEach(env, t, items[..|items| - 1]) + [Deserialize(env, t.space, items[|items| - 1])]
  }

  /** Each declared entry's value deserialized with its field's type. */
  function DeserializeFields(env: Env, t: Type, entries: seq<Entry>): (rs: seq<Outcome>)
    requires t.StructOf?
    requires forall i :: 0 <= i < |entries| ==> Declared(t, entries[i].key)
    ensures |rs| == |entries|
    ensures forall i :: 0 <= i < |entries| ==> rs[i] == Deserialize(env, SpaceOf(t, entries[i].key), entries[i].val)
    ensures Sound(rs)
    decreases t, 0, |entries|
  {
    if |entries| == 0 then []
    else
      var last := entries[|entries| - 1];
      DeserializeFields(env, t, entries[..|entries| - 1]) + [Deserialize(env, SpaceOf(t, last.key), last.val)]
  }

  /** `T.serialize`: a leaf's own serialize or the identity; the composites
      map their child over every element or value. On values outside the
      native space the source raises; the model leaves them as they are. */
  function Serialize(env: Env, t: Type, v: Value): (r: Value)
    ensures t.ArrayOf? && v.Arr? ==> r.Arr? && |r.items| == |v.items|
    ensures (t.MapOf? || t.StructOf?) && v.Obj? ==> r.Obj? && Keys(r.entries) == Keys(v.entries)
    ensures t.NullableOf? && v.Null? ==> r == Null
    decreases t, 1, 0
  {
    match t
    case Concrete(c) => if DefinesSerialize(c) then LeafSerialize(env, c, v) else v
    case ArrayOf(_) => if v.Arr? then Arr(SerializeEach(env, t, v.items)) else v
    case MapOf(_) => if v.Obj? then Obj(Rebuild(v.entries, SerializeEach(env, t, Vals(v.entries)))) else v
    case StructOf(_, _) => if v.Obj? then Obj(SerializeFields(env, t, v.entries)) else v
    case NullableOf(child) => if v.Null? then Null else Serialize(env, child, v)
  }

  function SerializeEach(env: Env, t: Type, items: seq<Value>): (ws: seq<Value>)
    requires t.ArrayOf? || t.MapOf?
    ensures |ws| == |items|
    ensures forall i :: 0 <= i < |items| ==> ws[i] == Serialize(env, t.space, items[i])
    decreases t, 0, |items|
  {
    if |items| == 0 then []
    else SerializeEach(env, t, items[..|items| - 1]) + [Serialize(env, t.space, items[|items| - 1])]
  }

  /** `self.schemas[k].serialize(v)` for each entry; a key the struct does not
      declare raises KeyError in the source and is passed on here. */
  function SerializeFields(env: Env, t: Type, entries: seq<Entry>): (ws: seq<Entry>)
    requires t.StructOf?
    ensures Keys(ws) == Keys(entries)
    ensures forall i :: 0 <= i < |entries| && Declared(t, entries[i].key) ==>
              ws[i].val == Serialize(env, SpaceOf(t, entries[i].key), entries[i].val)
    decreases t, 0, |entries|
  {
    if |entries| == 0 then []
    else
      var n := |entries| - 1;
      var e := entries[n];
      var w := if Declared(t, e.key) then Entry(e.key, Serialize(env, SpaceOf(t, e.key), e.val)) else e;
      SerializeFields(env, t, entries[..n]) + [w]
  }

  /** `T.check` as the model uses it: a leaf's own check, or else whether
      deserialize succeeds. */
  function Check(env: Env, t: Type, v: Value): bool
  {
    if t.Concrete? && DefinesCheck(t.cls) then LeafCheck(env, t.cls, v)
    else Deserialize(env, t, v).Ok?
  }

  /** What `T.check` as written does when the type has no check of its own:
      it catches `Invalid` only, so a failing composite's `util.Errors`
      escapes instead of giving False. */
  datatype CheckResult = Answer(member: bool) | Escapes(errors: seq<Invalid>)

  function CheckAsWritten(env: Env, t: Type, v: Value): (r: CheckResult)
    ensures r.Answer? ==> r.member == Check(env, t, v)
    ensures r.Escapes? ==> !Check(env, t, v) && |r.errors| > 0 && Deserialize(env, t, v) == Err(Many(r.errors))
  {
    if t.Concrete? && DefinesCheck(t.cls) then Answer(LeafCheck(env, t.cls, v))
    else match Deserialize(env, t, v)
      case Ok(_) => Answer(true)
      case Err(Single(_)) => Answer(false)
      case Err(Many(es)) => Escapes(es)
  }
}
