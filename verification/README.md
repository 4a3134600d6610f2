# Teleport schema engine — a Dafny model

Teleport describes JSON value spaces with JSON schemas. A schema is either a
type name (`"Integer"`) or a one-entry object that names a generic type and
gives it a parameter (`{"Array": "String"}`, `{"Struct": {"required": …,
"optional": …}}`). Resolving a schema, `T(schema)`, looks the name up in the
class-level registry and binds it. The result is a type instance with three
operations:

- `check` says whether a JSON value belongs to the type.
- `deserialize` turns a member into its native value, or reports every error
  with a JSON-pointer location.
- `serialize` goes back from native to JSON.

This project models the core of that engine:

- `implementation_from_class`, `bind_generic`, `T.__init__`,
  `get_type_or_fail` and `register`, which make up the registry and the
  resolver;
- the default `check`/`deserialize`/`serialize` of `T`;
- the leaf types, and the Array, Map and Struct converters with their
  error-accumulating generator bodies;
- the error helpers of `util.py`: `Invalid.prepend_location`,
  `IterableError`, `Errors`, `ErrorGenerator`, `ghetto_json_pointer` and
  `format_multiple_errors`;
- the `Color` and `Nullable` extension types.

Modules follow the program:

| module | file | models |
|---|---|---|
| `Json` | json.dfy | JSON/native values; objects as ordered entry lists |
| `Failures` | failures.dfy | `Invalid` with a kind and a location; `prepend_location` |
| `ErrorProtocol` | protocol.dfy | `IterableError`/`Errors` as `Raised`, and `ErrorGenerator` run over a trace of yields and a forced return |
| `Aggregate` | aggregate.dfy | the "try each child, keep going, re-yield under the child's index or key" loop shared by the composites |
| `Registry` | registry.dfy | type classes, `Implementation`/`BoundImplementation`, `register`, the default registry, `get_type_or_fail` |
| `Resolution` | resolution.dfy | `T.__init__` and `bind_generic`, including Struct's descriptor checks, and the schema printer that inverts it |
| `Conversion` | conversion.dfy | `T.check`/`deserialize`/`serialize`, the leaf classes and the composite generator bodies |
| `Composites` | composites.dfy | what Array, Map and Struct deserialization return, stated over all inputs |
| `Defaults` | defaults.dfy | the default derivations of `T`, and the escape of `util.Errors` from `T.check` |
| `Extensions` | extensions.dfy | `Color` and `Nullable` |
| `ColorPattern` | color.dfy | the regular expression `^#[0-9a-f]{6}$` under Python's `re.match` |
| `RoundTrip` | roundtrip.dfy | `serialize` after `deserialize` and `deserialize` after `serialize` |
| `Util` | util.dfy | `ghetto_json_pointer` and `format_multiple_errors` |
| `Scenarios` | scenarios.dfy | the test suite's pairs and further worked examples, evaluated on the model |

Some collaborators live outside the core. They are parameters:

- `Host` carries `compat.test_integer`, `compat.test_long`, and the RFC 3339
  parser and formatter (`pyrfc3339`).
- `Resolver` carries the registry and `get_type_hook`.

Exceptions become values:

- An `Invalid` raised alone is `Single`.
- A `util.Errors` raised by an `ErrorGenerator` is `Many`.
- The difference matters to `T.check`, which catches only `Invalid`.

Messages are kinds (`MissingField(name)`, `NotAString`, …), not strings.

## Model

| member | source | states |
|---|---|---|
| Resolution.ClassKindDecidesUse | python/teleport/core.py:25-42 | in a registry holding the standard classes, a class's bare name resolves exactly when the class has no `__init__`, to that concrete type; such a name under `{name: param}` is `Not a generic type`; a class with an `__init__` is `Not a concrete type` by name alone and is bound to the parameter under `{name: param}` |
| Registry.EveryLeafChecksOrDeserializes | python/teleport/core.py:171-202 | every built-in leaf class defines `check` or `deserialize`, so for them the `NotImplementedError` branches are not taken |
| Registry.NoHook | python/teleport/core.py:131-141 | the base class's `get_type_hook` finds no name |
| Registry.Register | python/teleport/core.py:154-156 | after registration the name maps to the class's implementation, and every other name keeps its entry or its absence |
| Registry.RegisterLaterWins | python/teleport/core.py:154-156 | registering a name twice leaves only the second class |
| Registry.NameOfInjective | python/teleport/core.py:222-405 | no two registered classes share a name |
| Registry.RegisterAllFinds | python/teleport/core.py:154-156 | after a sequence of registrations each registered class is found under its name |
| Registry.RegisterAllKeeps | python/teleport/core.py:154-156 | a name none of the registrations uses keeps its presence and its entry |
| Registry.DefaultFinds | python/teleport/core.py:222-405 | the import-time registry maps each class's name to that class's implementation |
| Registry.DefaultTypesStandard | python/teleport/core.py:222-405 | the import-time registry is standard: every class is found under its own name |
| Registry.DefaultTypesExact | python/teleport/core.py:222-405 | a name is in the import-time registry exactly when some class is registered under it |
| Registry.Lookup | python/teleport/core.py:123-129 | the registry is consulted first, then the hook; a name found by neither is `Unknown type` |
| Resolution.ResolveName | python/teleport/core.py:100-107 | a string schema resolves exactly when its name is found and is bound, to that concrete type; a generic name is `Not a concrete type`; an unknown name is `Unknown type` |
| Resolution.ResolveGeneric | python/teleport/core.py:109-117 | a one-entry object resolves by binding its generic to the parameter; a bound name is `Not a generic type`; an unknown name is `Unknown type` |
| Resolution.ResolveUnrecognized | python/teleport/core.py:119-120 | any other schema is `Unrecognized schema` |
| Resolution.Resolve | python/teleport/core.py:100-120 | every resolved type is well formed: no Struct has a name both required and optional |
| Resolution.BindGeneric | python/teleport/core.py:45-50 | binding a generic to its parameter only ever builds well-formed types, however deep the nesting |
| Resolution.BindChild | python/teleport/core.py:45-50 | Array, Map and Nullable bind exactly when their parameter resolves, wrapping the parameter's type |
| Resolution.BindStruct | python/teleport/core.py:288-306 | Struct binds exactly when the parameter is an object with object members `required` and `optional`, every field schema resolves, and the two key sets are disjoint; the fields carry exactly the descriptor's keys |
| Resolution.DescriptorOutcome | python/teleport/core.py:288-306 | for a well-shaped descriptor, binding succeeds exactly when both field lists resolve and are disjoint, giving those lists |
| Resolution.StructOverlapRejected | python/teleport/core.py:302-306 | a name both required and optional makes binding fail |
| Resolution.ResolveFieldsSpec | python/teleport/core.py:299-300 | resolving a field object succeeds exactly when every field schema resolves; the fields keep the object's keys, in order, each with its schema's type |
| Resolution.ResolveFieldsTotal | python/teleport/core.py:299-300 | resolving the fields from entry `i` on succeeds exactly when each remaining schema resolves |
| Resolution.ResolveFieldsPointwise | python/teleport/core.py:299-300 | each resolved field has its entry's key and its schema's type |
| Resolution.FieldNames | python/teleport/core.py:299-303 | a resolved field object's names are exactly its keys, in order |
| Resolution.BindDescriptor | python/teleport/core.py:288-306 | a descriptor of two field objects that resolve to disjoint field lists binds to the struct of those lists |
| Resolution.ResolveSchemaOf | python/teleport/core.py:100-120 | under a standard registry, resolving the printed schema of any well-formed type gives that type back |
| Resolution.ResolveFieldSchemas | python/teleport/core.py:299-300 | printed field lists resolve back to the fields |
| ErrorProtocol.Iterate | python/teleport/util.py:49-61 | a bare `Invalid` iterates as itself alone; an `Errors` iterates as the errors its generator yields |
| ErrorProtocol.BareInvalidIteratesOnce | python/teleport/util.py:49-52 | iterating a bare `Invalid` yields exactly that error |
| ErrorProtocol.RunErrorGenerator | python/teleport/util.py:68-84 | a generator body returns its forced value only when it yielded nothing; it raises `Errors` with the yielded errors, in order, when it yielded any; it is `IncorrectErrorGenerator` when it did neither |
| ErrorProtocol.DisciplinedNeverMisfires | python/teleport/util.py:68-84 | a body that forces a value exactly when it yielded nothing either returns or raises, never misfires |
| ErrorProtocol.SilentBodyIsIncorrect | python/teleport/util.py:77-80 | a body that neither yields nor forces a value is the incorrect-generator error |
| ErrorProtocol.FromGenerator | python/teleport/util.py:68-84 | a disciplined body succeeds exactly when it yields nothing, with its forced value; otherwise it raises a non-empty `Errors` of what it yielded |
| Failures.PrependAll | python/teleport/core.py:241-242 | relocating a group of errors keeps their number and order and prepends the same segment to each |
| Failures.PrependLocation | python/teleport/core.py:65-66 | the kind is kept and the location gains the item in front |
| Aggregate.Gather | python/teleport/core.py:234-245 | the loop fails exactly when some child failed, and yields errors exactly then when every failure reports; on success it keeps every child's value in order |
| Aggregate.GatherYieldsRelocated | python/teleport/core.py:236-242 | the loop yields each failed child's errors in child order, each under that child's index or key |
| Aggregate.RelocatedMembership | python/teleport/core.py:239-242 | an error is yielded exactly when it is some failed child's error with that child's segment prepended |
| Aggregate.RelocatedCount | python/teleport/core.py:239-242 | the loop yields as many errors as the children raised together |
| Conversion.Deserialize | python/teleport/core.py:194-202 | a failure always reports at least one error, and an Array, Map or Struct failure is always an `Errors` group |
| Conversion.Serialize | python/teleport/core.py:204-219 | a list serializes to a list of the same length; a map or struct object keeps its keys in order; Nullable gives null for null |
| Conversion.CheckAsWritten | python/teleport/core.py:159-180 | when `T.check` as written answers, it answers as the corrected check does; when it raises, the corrected check says False and the escaping `Errors` holds exactly deserialize's errors |
| Conversion.LeafCheck | python/teleport/core.py:350-405 | JSON accepts every value, Boolean exactly the booleans, Color only values String accepts, and Schema exactly what resolves against the shared registry with the base class's hook, which finds nothing |
| Conversion.LeafDeserialize | python/teleport/core.py:368-391 | String and DateTime accept only text; a failure is one bare `Invalid` at the root; String keeps the text; DateTime gives the timestamp the codec parsed |
| Conversion.LeafSerialize | python/teleport/core.py:393-394 | a timestamp serializes to text which, when the codec parses it back to the same timestamp, deserializes to the original |
| Conversion.ArrayBody | python/teleport/core.py:229-245 | given sound child outcomes, the Array body either yields errors or forces a value, exactly one of the two |
| Conversion.MapBody | python/teleport/core.py:258-275 | the same discipline for the Map body |
| Conversion.StructBody | python/teleport/core.py:309-340 | the same discipline for the Struct body, whose errors are missing fields, then unexpected fields, then the fields' own errors |
| Conversion.FindName | python/teleport/core.py:323-333 | a field name is found exactly when the struct declares it, at a field with that name |
| Conversion.SerializeFields | python/teleport/core.py:342-347 | serializing a struct keeps every key and serializes each declared field with its own type |
| Composites.ArrayRejectsNonList | python/teleport/core.py:230-232 | a non-list gives exactly one `Must be list` at the root |
| Composites.ArrayDeserialize | python/teleport/core.py:229-245 | a list deserializes exactly when every element does, to the list of their values; otherwise the errors are the elements' errors, in order, under their indices |
| Composites.ArrayErrorLocations | python/teleport/core.py:236-242 | an error of a failed list is exactly an error of some failed element, with that element's index in front |
| Composites.MapRejectsNonObject | python/teleport/core.py:260-262 | a non-object gives exactly one `Must be dict` at the root |
| Composites.MapDeserialize | python/teleport/core.py:258-275 | an object deserializes exactly when every value does, keeping its keys; otherwise the errors are the values' errors under their keys |
| Composites.StructRejectsNonObject | python/teleport/core.py:311-313 | a non-object gives exactly one `Dict expected` at the root |
| Composites.MissingFieldsExact | python/teleport/core.py:317-320 | a missing-field error is reported exactly for each required name absent from the input, at the root |
| Composites.UnexpectedFieldsExact | python/teleport/core.py:322-325 | an unexpected-field error is reported exactly for each input key the struct does not declare, at the root |
| Composites.StructDeserialize | python/teleport/core.py:309-340 | a struct deserializes exactly when no required field is missing, no key is undeclared and every field deserializes; absent optional fields stay absent; otherwise the errors are the missing fields, then the undeclared keys, then the fields' own errors under their names |
| Composites.StructAccepts | python/teleport/core.py:309-340 | an object deserializes as a struct exactly when every required name is present, every key is declared and every value deserializes with its field's type |
| Composites.StructRefusesUndeclared | python/teleport/core.py:322-325 | one undeclared key is enough to fail, whatever the other fields hold |
| Composites.StructAcceptsDeclared | python/teleport/core.py:315-340 | when every key is declared, the object is accepted exactly when no required field is missing and every value deserializes |
| Composites.StructValues | python/teleport/core.py:327-340 | on success the result has the input's keys, each field converted with its declared type |
| Composites.StructErrors | python/teleport/core.py:315-337 | on failure, the three groups of errors in source order |
| Defaults.DeserializeFromCheck | python/teleport/core.py:196-200 | a type with only `check` returns its input unchanged exactly when the check holds; otherwise one root error |
| Defaults.SerializeDefaultsToIdentity | python/teleport/core.py:216-219 | a type without `serialize` gives back the native value |
| Defaults.CheckAgreesWithDeserialize | python/teleport/core.py:171-178 | the corrected check holds exactly when deserialize succeeds |
| Defaults.SchemaCheckIsResolution | python/teleport/core.py:400-405 | a value is a Schema exactly when it resolves against the shared registry with the base class's empty hook, whichever subclass is checking |
| Defaults.SchemaCheckMissesHookTypes | python/teleport/core.py:35-38 | a name only a subclass's hook knows resolves for that subclass but is refused by the Schema type |
| Defaults.CheckAsWrittenOnLeaves | python/teleport/core.py:171-178 | on leaves the as-written check gives the same answer as the corrected one |
| Defaults.CheckAsWrittenOnComposites | python/teleport/core.py:171-178 | on Array, Map and Struct the as-written check never answers False: on a non-member it lets `Errors` escape |
| Defaults.CheckEscapesExample | python/teleport/core.py:171-178 | checking `1` against `{"Array": "Integer"}` raises instead of returning False, also under Nullable |
| ColorPattern.MatchesIsGrammar | python/teleport/examples.py:18 | the `re.match` of `^#[0-9a-f]{6}$` accepts exactly `#`, six lower-case hex digits, and optionally one final newline |
| ColorPattern.MatchesExamples | python/teleport/examples.py:18 | concrete accepted and rejected strings, including the trailing-newline case |
| Extensions.ColorMembership | python/teleport/examples.py:15-18 | a value is a Color exactly when it is a string that the pattern accepts, and every Color is a String |
| Extensions.ColorDeserialize | python/teleport/examples.py:15-18 | a Color deserializes to itself exactly when it is one; otherwise one root error |
| Extensions.ColorExamples | python/teleport/examples.py:15-18 | `#c0ffee` is a Color, upper case and non-strings are not |
| Extensions.NullableResolution | python/teleport/examples.py:21-25 | `Nullable` is generic, and `{"Nullable": s}` resolves exactly when `s` does, to the nullable of its type |
| Extensions.NullableDelegates | python/teleport/examples.py:27-35 | null passes through both ways; everything else goes to the child |
| Extensions.NullableRoundTrip | python/teleport/examples.py:27-35 | Nullable keeps its child's serialize-after-deserialize round trip |
| RoundTrip.SerializeAfterDeserialize | python/teleport/core.py:194-347 | serializing what deserialize produced gives back the JSON input, for every type without a DateTime inside and, for a type with one, whenever formatting inverts parsing |
| RoundTrip.DeserializeGivesNative | python/teleport/core.py:194-340 | what deserialize produces is a native value of the type |
| RoundTrip.DeserializeAfterSerialize | python/teleport/core.py:194-347 | every native value survives serialize then deserialize, for every type without a DateTime inside and, for a type with one, whenever parsing inverts formatting |
| RoundTrip.TimeFreeRoundTrips | python/teleport/core.py:194-347 | for a type without a DateTime inside, such as `{"Array": "Integer"}`, both round trips hold whatever the codec does |
| RoundTrip.DeserializeKeepsNonNull | python/teleport/core.py:194-202 | deserializing a non-null JSON value never gives null, which is what lets Nullable tell its own null apart |
| RoundTrip.SerializeKeepsNonNull | python/teleport/core.py:216-219 | serializing a non-null native value never gives null |
| RoundTrip.ArrayBack | python/teleport/core.py:247-248 | when every element comes back from serialize after deserialize, so does the list |
| RoundTrip.MapBack | python/teleport/core.py:277-282 | when every value comes back, so does the object, keys and order kept |
| RoundTrip.StructBack | python/teleport/core.py:342-347 | when every field value comes back under its declared type, so does the struct |
| RoundTrip.ArrayRoundTrip | python/teleport/core.py:229-245 | a list whose elements each deserialize to the given natives deserializes to the list of them |
| RoundTrip.MapRoundTrip | python/teleport/core.py:258-275 | an object whose values each deserialize to the given natives deserializes to the object of them under the same keys |
| RoundTrip.StructRoundTrip | python/teleport/core.py:309-340 | an object with every required name, only declared keys, and values that deserialize to the given natives deserializes to the object of them |
| Util.JsonPointer | python/teleport/util.py:27-28 | every pointer starts with `/`, and the empty location is `/` alone |
| Util.JsonPointerReadBack | python/teleport/util.py:27-28 | when no segment holds `/`, splitting the pointer after its leading `/` gives back the segments' texts |
| Util.JsonPointerInjectiveOnSlashFree | python/teleport/util.py:27-28 | slash-free locations with the same pointer have the same segment texts |
| Util.JsonPointerNotInjective | python/teleport/util.py:27-28 | distinct locations can share a pointer: a key holding `/`, an index and its decimal key, the root and the empty key |
| Util.FormatMultipleErrors | python/teleport/util.py:31-40 | the report starts with a newline, and with no errors it is that newline alone |
| Util.FormatErrors | python/teleport/util.py:31-40 | the accumulating loop builds a leading newline, then one line per error |
| Util.FormatLineLayout | python/teleport/util.py:34-39 | a line is the pointer, blank to column max(10, pointer length), then the message and a newline |
| Util.FormatMultipleErrorsLineCount | python/teleport/util.py:31-40 | single-line messages and pointers give exactly one newline per error plus the leading one |
| Scenarios.StandardLookups | python/teleport/core.py:222-369 | in a standard registry "String" and "Integer" name concrete types and "Array" and "Struct" name generics |
| Scenarios.ErrorTestResolves | python/teleport/testsuite/test_core.py:90-94 | under any standard registry the error test's schema resolves to its struct type |
| Scenarios.DefaultErrorTestResolves | python/teleport/testsuite/test_core.py:90-94 | the error test's struct schema resolves, under the default registry, to a struct requiring a String "name" and an Array of String "tags" |
| Scenarios.ErrorTestTags | python/teleport/testsuite/test_core.py:100 | `["a", true]` as an Array of String fails with one `Not a string` at index 1 |
| Scenarios.SecondItemFails | python/teleport/core.py:236-242 | when only the second element fails, with one error, the list fails with that error under index 1 |
| Scenarios.ErrorsInOrder | python/teleport/core.py:315-337 | one missing, one unexpected and one nested error come out in that order |
| Scenarios.StructFailure | python/teleport/core.py:315-337 | an undeclared key makes the struct fail with the missing, unexpected and nested errors concatenated |
| Scenarios.ErrorTestErrors | python/teleport/testsuite/test_core.py:96-112 | `{"tags": ["a", true], "lol": 1}` fails with missing "name", unexpected "lol", then "Not a string" at /tags/1, in that order |
| Scenarios.DefaultSchemaExamples | python/teleport/core.py:400-405 | under the default registry, `"Integer"` is a Schema, as the Schema test pair expects, and an object naming an unknown type is not |
| Scenarios.OverlapRefused | python/teleport/core.py:302-306 | a struct schema with "a" both required and optional is refused |
| Scenarios.SingleFieldStruct | python/teleport/core.py:309-340 | an object holding only the one required field deserializes to that field's value |
| Scenarios.OptionalFieldAbsent | python/teleport/testsuite/test_core.py:78-82 | `{"a": ts}` deserializes with the optional "b" left absent |
| Scenarios.UndeclaredFieldRejected | python/teleport/core.py:322-325 | `{"a": ts, "c": 1}` fails with exactly one error, "c" unexpected at the root |

## Left out

- `normalize_string` and the compat number tests (`test_integer`, `test_long`) are not part of this model. They are host functions or plain `Str` tests. Python 2's `str`/`unicode` split is not modelled.
- The RFC 3339 codec is a pair of host functions. The round trips take its own round-trip laws as hypotheses, for types with a DateTime inside.
- SerializeAfterDeserialize: for a type with a DateTime inside, it holds only when the codec formats every parsed timestamp back to the same text. The source's codec does not: `generate(..., microseconds=True)` writes "2013-01-01T00:00:00Z" back as "2013-01-01T00:00:00.000000Z". So the source does not round-trip non-canonical timestamp text, and the lemma says nothing about such types under that codec.
- DeserializeAfterSerialize: for a type with a DateTime inside, it holds only when the codec parses every formatted timestamp back to the same timestamp. With `accept_naive=True`, a naive timestamp comes back with a time zone, so the source does not round-trip naive timestamps.
- JSON floats are `Float(r: real)`. Binary floating point and its rounding are not modelled, and no arithmetic is done on them.
- `PythonObject` (pickle) is left out. It is foreign code and no property can be stated about it.
- `ValidationError` is left out. The core never raises it: composite failures raise `util.Errors`.
- Message strings are modelled as kinds. The text formats (`json.dumps` of a key, `"Not a concrete type: \"…\""`) are not.
- Python dict and set iteration order is not modelled. Struct's required-field loop uses declaration order, and the descriptor loop visits "required" before "optional". `Composites.MissingFieldsExact` states the missing-field errors as a set, which holds for any order.
- Python's exact `type(x) == list/dict` tests become the constructor tests `Arr?` and `Obj?`. Subclasses of list or dict are not modelled.
- Laziness of `Errors` is not modelled: the errors are a finished sequence. A generator interrupted halfway is not modelled.
- Mutation of the shared `types` dict is modelled as a function from registry to registry. A subclass that assigns its own `types` dict is not modelled: every resolver shares one registry.
- Registry.EveryLeafChecksOrDeserializes: the class set is the closed set of built-in and example classes. A user class registered with neither `check` nor `deserialize` reaches the `NotImplementedError` branches of `T.check` and `T.deserialize` (core.py lines 180 and 202). Such a class is not modelled.
- Registry.DefaultTypesExact: the real import-time registry also holds "PythonObject", which is left out as above.
- Conversion.Serialize: a value outside the type's native space passes through unchanged. The source does different things: Array's `list(map(…))` iterates any iterable, so a string becomes the list of its characters and a dict the list of its keys, and only a non-iterable raises. Map and Struct call `.items()`, which raises on a non-dict. Struct raises `KeyError` on an undeclared key, and the DateTime codec raises on a non-timestamp. The round-trip lemmas only use native values.
- Extensions.ColorMembership: `Color.check` resolves `t("String")` on every call; the model calls the String class directly. They differ only when someone re-registers "String".
- The hook `get_type_hook` returns an implementation record. The docstring says "a subclass of Type", which would always fail the kind tests.

## Findings

| source | as written | input that shows it | evidently intended | confidence | as-written member | corrected member |
|---|---|---|---|---|---|---|
| python/teleport/core.py:171-178 | `T.check` on a type without its own `check` catches only `Invalid`, but a failing Array, Map or Struct raises `util.Errors`, which is not an `Invalid`, so it escapes | `t({"Array": "Integer"}).check(1)` raises instead of returning False, and so does `{"Nullable": {"Array": "Integer"}}` | check returns False whenever deserialize fails | not executed | Conversion.CheckAsWritten, Defaults.CheckEscapesExample | Conversion.Check, Defaults.CheckAgreesWithDeserialize |
