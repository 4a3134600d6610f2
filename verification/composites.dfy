/** What the Array, Map and Struct deserializers promise: all-or-nothing
    results, every child error reported under its index or key, and the
    struct's order of missing, unexpected and nested errors. */
module Composites {
  import opened Wrappers
  import opened Json
  import opened Failures
  import opened ErrorProtocol
  import opened Resolution
  import opened Aggregate
  import opened Conversion

  /** What each element gives under the child type. */
  function Children(env: Env, space: Type, items: seq<Value>): (rs: seq<Outcome>)
    ensures |rs| == |items|
    ensures forall i :: 0 <= i < |items| ==> rs[i] == Deserialize(env, space, items[i])
  {
    seq(|items|, i requires 0 <= i < |items| => Deserialize(env, space, items[i]))
  }

  /** A non-list gives exactly one "Must be list" error at the root. */
  lemma ArrayRejectsNonList(env: Env, space: Type, v: Value)
    requires !v.Arr?
    ensures Deserialize(env, ArrayOf(space), v) == Err(Many([Invalid(MustBeList, [])]))
  {
  }

  /** A list deserializes exactly when every element does; the result has one
      converted element per input element, in order; otherwise the errors
      are all the elements' errors in index order, each under its index. */
  lemma ArrayDeserialize(env: Env, space: Type, items: seq<Value>)
    ensures var r := Deserialize(env, ArrayOf(space), Arr(items));
            && (r.Ok? <==> forall i :: 0 <= i < |items| ==> Deserialize(env, space, items[i]).Ok?)
            && (r.Ok? ==>
                  && r.value.Arr? && |r.value.items| == |items|
                  && forall i :: 0 <= i < |items| ==> r.value.items[i] == Deserialize(env, space, items[i]).value)
            && (r.Err? ==> r.error == Many(Relocated(Children(env, space, items), IndexSegments(|items|))))
  {
    var t := ArrayOf(space);
    var rs := DeserializeEach(env, t, items);
    assert rs == Children(env, space, items);
    GatherYieldsRelocated(rs, IndexSegments(|items|));
  }

  /** Where an array's errors come from: each is an error of a failed
      element, with that element's index put in front of its location; and
      every error of every failed element is there. */
  lemma ArrayErrorLocations(env: Env, space: Type, items: seq<Value>, e: Invalid)
    ensures var r := Deserialize(env, ArrayOf(space), Arr(items));
            var rs := Children(env, space, items);
            r.Err? ==>
              (e in Iterate(r.error) <==>
                 exists i, d :: 0 <= i < |items| && rs[i].Err? && d in Iterate(rs[i].error)
                                && e == Invalid(d.kind, [Index(i)] + d.location))
  {
    ArrayDeserialize(env, space, items);
    if Deserialize(env, ArrayOf(space), Arr(items)).Err? {
      RelocatedMembership(Children(env, space, items), IndexSegments(|items|), e);
    }
  }

  /** A non-object gives exactly one "Must be dict" error at the root. */
  lemma MapRejectsNonObject(env: Env, space: Type, v: Value)
    requires !v.Obj?
    ensures Deserialize(env, MapOf(space), v) == Err(Many([Invalid(MustBeDict, [])]))
  {
  }

  /** An object deserializes exactly when every value does; the result has
      exactly the input keys in input order, each with its converted value;
      otherwise the errors are the values' errors in key order, each under
      its key. */
  lemma MapDeserialize(env: Env, space: Type, entries: seq<Entry>)
    ensures var r := Deserialize(env, MapOf(space), Obj(entries));
            && (r.Ok? <==> forall i :: 0 <= i < |entries| ==> Deserialize(env, space, entries[i].val).Ok?)
            && (r.Ok? ==>
                  && r.value.Obj? && Keys(r.value.entries) == Keys(entries)
                  && forall i :: 0 <= i < |entries| ==>
                       r.value.entries[i].val == Deserialize(env, space, entries[i].val).value)
            && (r.Err? ==> r.error == Many(Relocated(Children(env, space, Vals(entries)), KeySegments(entries))))
  {
    var rs := Children(env, space, Vals(entries));
    assert forall i :: 0 <= i < |entries| ==> rs[i] == Deserialize(env, space, entries[i].val);
    MapUnfold(env, space, entries);
    MapBodyOutcome(entries, rs);
  }

  /** `Deserialize` on an object is the map body run on what its values give. */
  lemma MapUnfold(env: Env, space: Type, entries: seq<Entry>)
    ensures var rs := Children(env, space, Vals(entries));
            && Sound(rs)
            && Deserialize(env, MapOf(space), Obj(entries)) == FromGenerator(MapBody(Obj(entries), rs))
  {
    assert DeserializeEach(env, MapOf(space), Vals(entries)) == Children(env, space, Vals(entries));
  }

  /** The map generator body run under ErrorGenerator, given what the values
      gave. */
  lemma MapBodyOutcome(entries: seq<Entry>, rs: seq<Outcome>)
    requires |rs| == |entries| && Sound(rs)
    ensures var r := FromGenerator(MapBody(Obj(entries), rs));
            && (r.Ok? <==> forall i :: 0 <= i < |rs| ==> rs[i].Ok?)
            && (r.Ok? ==>
                  && r.value.Obj? && Keys(r.value.entries) == Keys(entries)
                  && forall i :: 0 <= i < |rs| ==> r.value.entries[i].val == rs[i].value)
            && (r.Err? ==> r.error == Many(Relocated(rs, KeySegments(entries))))
  {
    GatherYieldsRelocated(rs, KeySegments(entries));
    var r := FromGenerator(MapBody(Obj(entries), rs));
    if r.Ok? {
      var g := Gather(rs, KeySegments(entries));
      assert r.value == Obj(Rebuild(entries, g.values));
      assert Vals(r.value.entries) == g.values;
    }
  }

  /** A non-object gives exactly one "Dict expected" error at the root. */
  lemma StructRejectsNonObject(env: Env, t: Type, v: Value)
    requires t.StructOf? && !v.Obj?
    ensures Deserialize(env, t, v) == Err(Many([Invalid(DictExpected, [])]))
  {
  }

  /** "Missing field" is reported, at the root, for exactly the required
      names the input lacks. */
  lemma {:induction false} MissingFieldsExact(required: seq<Field>, entries: seq<Entry>, e: Invalid)
    ensures e in MissingFields(required, entries) <==>
              e.location == [] && e.kind.MissingField? && e.kind.name in Names(required)
              && e.kind.name !in Keys(entries)
    decreases |required|
  {
    if |required| > 0 {
      MissingFieldsExact(required[1..], entries, e);
      assert Names(required) == [required[0].name] + Names(required[1..]);
    }
  }

  /** "Unexpected field" is reported, at the root, for exactly the input keys
      the struct does not declare. */
  lemma {:induction false} UnexpectedFieldsExact(t: Type, entries: seq<Entry>, e: Invalid)
    requires t.StructOf?
    ensures e in UnexpectedFields(t, entries) <==>
              e.location == [] && e.kind.UnexpectedField? && e.kind.name in Keys(entries)
              && !Declared(t, e.kind.name)
    decreases |entries|
  {
    if |entries| > 0 {
      UnexpectedFieldsExact(t, entries[1..], e);
      assert Keys(entries) == [entries[0].key] + Keys(entries[1..]);
    }
  }

  lemma {:induction false} UnexpectedFieldsNone(t: Type, entries: seq<Entry>)
    requires t.StructOf?
    ensures |UnexpectedFields(t, entries)| == 0 <==> forall i :: 0 <= i < |entries| ==> Declared(t, entries[i].key)
    decreases |entries|
  {
    if |entries| > 0 {
      UnexpectedFieldsNone(t, entries[1..]);
      assert forall i :: 1 <= i < |entries| ==> entries[i] == entries[1..][i - 1];
    }
  }

  lemma {:induction false} MissingFieldsNone(required: seq<Field>, entries: seq<Entry>)
    ensures |MissingFields(required, entries)| == 0 <==> forall i :: 0 <= i < |required| ==> required[i].name in Keys(entries)
    decreases |required|
  {
    if |required| > 0 {
      MissingFieldsNone(required[1..], entries);
      assert forall i :: 1 <= i < |required| ==> required[i] == required[1..][i - 1];
    }
  }

  lemma {:induction false} AllDeclaredKept(t: Type, entries: seq<Entry>)
    requires t.StructOf?
    requires forall i :: 0 <= i < |entries| ==> Declared(t, entries[i].key)
    ensures DeclaredEntries(t, entries) == entries
    decreases |entries|
  {
    if |entries| > 0 {
      AllDeclaredKept(t, entries[1..]);
      assert [entries[0]] + entries[1..] == entries;
    }
  }

  /** What each declared entry gives under its field's type. */
  function FieldChildren(env: Env, t: Type, entries: seq<Entry>): (rs: seq<Outcome>)
    requires t.StructOf?
    requires forall i :: 0 <= i < |entries| ==> Declared(t, entries[i].key)
    ensures |rs| == |entries|
    ensures forall i :: 0 <= i < |entries| ==> rs[i] == Deserialize(env, SpaceOf(t, entries[i].key), entries[i].val)
  {
    seq(|entries|, i requires 0 <= i < |entries| => Deserialize(env, SpaceOf(t, entries[i].key), entries[i].val))
  }

  /** A struct deserializes exactly when no required field is missing, no
      key is undeclared and every field's value deserializes; the result
      then has exactly the input's keys (absent optional fields stay
      absent), each with its converted value. Otherwise the errors are the
      missing fields, then the unexpected fields, then the fields' own errors
      under their names, in input order. */
  lemma StructDeserialize(env: Env, t: Type, entries: seq<Entry>)
    requires t.StructOf?
    ensures var r := Deserialize(env, t, Obj(entries));
            && (r.Ok? <==>
                  && (forall i :: 0 <= i < |t.required| ==> t.required[i].name in Keys(entries))
                  && (forall i :: 0 <= i < |entries| ==> Declared(t, entries[i].key))
                  && (forall i :: 0 <= i < |entries| ==>
                        Deserialize(env, SpaceOf(t, entries[i].key), entries[i].val).Ok?))
            && (r.Ok? ==>
                  && r.value.Obj? && Keys(r.value.entries) == Keys(entries)
                  && forall i :: 0 <= i < |entries| ==>
                       r.value.entries[i].val == Deserialize(env, SpaceOf(t, entries[i].key), entries[i].val).value)
            && (r.Err? ==>
                  var declared := DeclaredEntries(t, entries);
                  r.error == Many(MissingFields(t.required, entries) + UnexpectedFields(t, entries)
                                  + Relocated(FieldChildren(env, t, declared), KeySegments(declared))))
  {
    StructAccepts(env, t, entries);
    StructValues(env, t, entries);
    StructErrors(env, t, entries);
  }

  /** `Deserialize` on an object is the struct body run on what its
      declared entries give. */
  lemma StructUnfold(env: Env, t: Type, entries: seq<Entry>)
    requires t.StructOf?
    ensures var declared := DeclaredEntries(t, entries);
            var rs := FieldChildren(env, t, declared);
            && Sound(rs)
            && Deserialize(env, t, Obj(entries)) == FromGenerator(StructBody(t, Obj(entries), rs))
  {
    FieldsAreChildren(env, t, DeclaredEntries(t, entries));
  }

  /** The recursive field loop and the pointwise children agree. */
  lemma FieldsAreChildren(env: Env, t: Type, entries: seq<Entry>)
    requires t.StructOf?
    requires forall i :: 0 <= i < |entries| ==> Declared(t, entries[i].key)
    ensures DeserializeFields(env, t, entries) == FieldChildren(env, t, entries)
    ensures Sound(FieldChildren(env, t, entries))
  {
    var a := DeserializeFields(env, t, entries);
    var b := FieldChildren(env, t, entries);
    assert |a| == |b|;
    forall i | 0 <= i < |a| ensures a[i] == b[i] {
    }
  }

  lemma StructAccepts(env: Env, t: Type, entries: seq<Entry>)
    requires t.StructOf?
    ensures Deserialize(env, t, Obj(entries)).Ok? <==>
              && (forall i :: 0 <= i < |t.required| ==> t.required[i].name in Keys(entries))
              && (forall i :: 0 <= i < |entries| ==> Declared(t, entries[i].key))
              && (forall i :: 0 <= i < |entries| ==>
                    Deserialize(env, SpaceOf(t, entries[i].key), entries[i].val).Ok?)
  {
    if forall i :: 0 <= i < |entries| ==> Declared(t, entries[i].key) {
      StructAcceptsDeclared(env, t, entries);
      MissingFieldsNone(t.required, entries);
    } else {
      StructRefusesUndeclared(env, t, entries);
    }
  }

  lemma StructAcceptsDeclared(env: Env, t: Type, entries: seq<Entry>)
    requires t.StructOf?
    requires forall i :: 0 <= i < |entries| ==> Declared(t, entries[i].key)
    ensures Deserialize(env, t, Obj(entries)).Ok? <==>
              && |MissingFields(t.required, entries)| == 0
              && forall i :: 0 <= i < |entries| ==> Deserialize(env, SpaceOf(t, entries[i].key), entries[i].val).Ok?
  {
    AllDeclaredKept(t, entries);
    StructUnfold(env, t, entries);
    StructBodyAccepts(t, entries, FieldChildren(env, t, entries));
    UnexpectedFieldsNone(t, entries);
  }

  lemma StructRefusesUndeclared(env: Env, t: Type, entries: seq<Entry>)
    requires t.StructOf?
    requires !forall i :: 0 <= i < |entries| ==> Declared(t, entries[i].key)
    ensures Deserialize(env, t, Obj(entries)).Err?
  {
    StructUnfold(env, t, entries);
    StructBodyOutcome(t, entries, FieldChildren(env, t, DeclaredEntries(t, entries)));
    UnexpectedFieldsNone(t, entries);
  }

  lemma StructValues(env: Env, t: Type, entries: seq<Entry>)
    requires t.StructOf?
    ensures var r := Deserialize(env, t, Obj(entries));
            r.Ok? ==>
              && r.value.Obj? && Keys(r.value.entries) == Keys(entries)
              && forall i :: 0 <= i < |entries| ==>
                   && Declared(t, entries[i].key)
                   && Deserialize(env, SpaceOf(t, entries[i].key), entries[i].val).Ok?
                   && r.value.entries[i].val == Deserialize(env, SpaceOf(t, entries[i].key), entries[i].val).value
  {
    var declared := DeclaredEntries(t, entries);
    var rs := FieldChildren(env, t, declared);
    StructUnfold(env, t, entries);
    StructBodyOutcome(t, entries, rs);
    UnexpectedFieldsNone(t, entries);
    if Deserialize(env, t, Obj(entries)).Ok? {
      AllDeclaredKept(t, entries);
    }
  }

  lemma StructErrors(env: Env, t: Type, entries: seq<Entry>)
    requires t.StructOf?
    ensures var r := Deserialize(env, t, Obj(entries));
            r.Err? ==>
              var declared := DeclaredEntries(t, entries);
              r.error == Many(MissingFields(t.required, entries) + UnexpectedFields(t, entries)
                              + Relocated(FieldChildren(env, t, declared), KeySegments(declared)))
  {
    var declared := DeclaredEntries(t, entries);
    StructUnfold(env, t, entries);
    StructBodyOutcome(t, entries, FieldChildren(env, t, declared));
  }

  /** The struct generator body run under ErrorGenerator, given what the
      declared entries gave: it returns exactly when nothing is missing,
      nothing is unexpected and every field succeeded. */
  /** The struct body succeeds exactly when nothing is missing, nothing is
      undeclared and every declared entry succeeded. */
  lemma StructBodyAccepts(t: Type, entries: seq<Entry>, rs: seq<Outcome>)
    requires t.StructOf?
    requires |rs| == |DeclaredEntries(t, entries)| && Sound(rs)
    ensures FromGenerator(StructBody(t, Obj(entries), rs)).Ok? <==>
              && |MissingFields(t.required, entries)| == 0
              && |UnexpectedFields(t, entries)| == 0
              && forall i :: 0 <= i < |rs| ==> rs[i].Ok?
  {
    StructBodyOutcome(t, entries, rs);
  }

  lemma StructBodyOutcome(t: Type, entries: seq<Entry>, rs: seq<Outcome>)
    requires t.StructOf?
    requires |rs| == |DeclaredEntries(t, entries)| && Sound(rs)
    ensures var r := FromGenerator(StructBody(t, Obj(entries), rs));
            var declared := DeclaredEntries(t, entries);
            && (r.Ok? <==>
                  && |MissingFields(t.required, entries)| == 0
                  && |UnexpectedFields(t, entries)| == 0
                  && forall i :: 0 <= i < |rs| ==> rs[i].Ok?)
            && (r.Ok? ==>
                  && r.value.Obj? && Keys(r.value.entries) == Keys(declared)
                  && forall i :: 0 <= i < |rs| ==> r.value.entries[i].val == rs[i].value)
            && (r.Err? ==>
                  r.error == Many(MissingFields(t.required, entries) + UnexpectedFields(t, entries)
                                  + Relocated(rs, KeySegments(declared))))
  {
    var declared := DeclaredEntries(t, entries);
    GatherYieldsRelocated(rs, KeySegments(declared));
    var r := FromGenerator(StructBody(t, Obj(entries), rs));
    if r.Ok? {
      var g := Gather(rs, KeySegments(declared));
      assert Vals(r.value.entries) == g.values;
    }
  }
}
