/** Validation errors (`Invalid` in core.py) and schema errors. */
module Failures {

  /** One step of a location: an array index or an object key. */
  datatype Segment = Index(index: nat) | Key(key: string)

  /** What went wrong while deserializing. The message texts of the source
      are rendered here as kinds; the field name travels with the two
      struct kinds. */
  datatype ErrorKind =
    | MustBeList                    // Array on a non-list
    | MustBeDict                    // Map on a non-object
    | DictExpected                  // Struct on a non-object
    | MissingField(name: string)
    | UnexpectedField(name: string)
    | NotAString
    | InvalidDateTime
    | NotAMember                    // the default deserialize on a failed check

  /** A single validation error: a message and where it occurred. */
  datatype Invalid = Invalid(kind: ErrorKind, location: seq<Segment>)

  /** Why a schema could not be resolved. These are also `Invalid` in the
      source, always raised at the empty location and never aggregated. */
  datatype SchemaError =
    | UnrecognizedSchema            // neither a string nor a one-key object
    | UnknownType(name: string)
    | NotConcrete(name: string)     // a generic used as a bare name
    | NotGeneric(name: string)      // a concrete type given a parameter
    | StructMalformed               // "required" or "optional" key missing
    | StructFieldsNotObject         // "required" or "optional" not an object
    | StructOverlap                 // a name both required and optional

  /** The same error, one level further out: `item` becomes the first step. */
  function PrependLocation(e: Invalid, item: Segment): (r: Invalid)
    ensures r.kind == e.kind
    ensures |r.location| == |e.location| + 1
    ensures r.location[0] == item && r.location[1..] == e.location
  {
    Invalid(e.kind, [item] + e.location)
  }

  /** `PrependLocation` applied to each error of a list, order kept. */
  function PrependAll(item: Segment, es: seq<Invalid>): (rs: seq<Invalid>)
    ensures |rs| == |es|
    ensures forall i :: 0 <= i < |es| ==> rs[i] == PrependLocation(es[i], item)
  {
    seq(|es|, i requires 0 <= i < |es| => PrependLocation(es[i], item))
  }
}
