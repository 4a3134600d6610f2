/** Round trips between deserialize and serialize. The RFC 3339 codec is the
    only leaf that is not the identity, so a type without a DateTime inside
    round-trips unconditionally, and one with a DateTime inside round-trips
    when the codec does. */
module RoundTrip {
  import opened Wrappers
  import opened Json
  import opened Failures
  import opened ErrorProtocol
  import opened Registry
  import opened Resolution
  import opened Aggregate
  import opened Conversion
  import opened Composites

  /** Formatting a parsed timestamp gives back the text it was parsed from. */
  ghost predicate FormatInvertsParse(host: Host)
  {
    forall s :: host.parseTime(s).Some? ==> host.formatTime(host.parseTime(s).value) == s
  }

  /** Parsing a formatted timestamp gives back the timestamp. */
  ghost predicate ParseInvertsFormat(host: Host)
  {
    forall d :: host.parseTime(host.formatTime(d)) == Some(d)
  }

  /** The type has a DateTime somewhere inside it. */
  ghost predicate UsesTime(t: Type)
    decreases t
  {
    match t
    case Concrete(c) => c == DateTimeType
    case ArrayOf(s) => UsesTime(s)
    case MapOf(s) => UsesTime(s)
    case NullableOf(c) => UsesTime(c)
    case StructOf(req, opt) =>
      || (exists i :: 0 <= i < |req| && UsesTime(req[i].space))
      || (exists i :: 0 <= i < |opt| && UsesTime(opt[i].space))
  }

  /** A field's type is inside its struct, DateTimes included. */
  lemma FieldUsesTime(t: Type, k: string)
    requires t.StructOf? && Declared(t, k) && UsesTime(SpaceOf(t, k))
    ensures UsesTime(t)
  {
    var i := FindName(t.required, k);
    if i < |t.required| {
      assert UsesTime(t.required[i].space);
    } else {
      var j := FindName(t.optional, k);
      assert UsesTime(t.optional[j].space);
    }
  }

  /** The native values of a type: what its deserialize can produce. */
  ghost predicate Native(env: Env, t: Type, v: Value)
    decreases t
  {
    match t
    case Concrete(c) =>
      if c == StringType then v.Str?
      else if c == DateTimeType then v.Time?
      else LeafCheck(env, c, v)
    case ArrayOf(s) => v.Arr? && forall i :: 0 <= i < |v.items| ==> Native(env, s, v.items[i])
    case MapOf(s) => v.Obj? && forall i :: 0 <= i < |v.entries| ==> Native(env, s, v.entries[i].val)
    case StructOf(req, _) =>
      && v.Obj?
      && (forall i :: 0 <= i < |req| ==> req[i].name in Keys(v.entries))
      && (forall i :: 0 <= i < |v.entries| ==>
            Declared(t, v.entries[i].key) && Native(env, SpaceOf(t, v.entries[i].key), v.entries[i].val))
    case NullableOf(c) => v.Null? || Native(env, c, v)
  }

  lemma EntriesEqual(a: seq<Entry>, b: seq<Entry>)
    requires Keys(a) == Keys(b) && Vals(a) == Vals(b)
    ensures a == b
  {
    assert |a| == |Keys(a)| == |b|;
    forall i | 0 <= i < |a| ensures a[i] == b[i] {
      assert a[i].key == Keys(a)[i] == Keys(b)[i] == b[i].key;
      assert a[i].val == Vals(a)[i] == Vals(b)[i] == b[i].val;
    }
  }

  /** Deserializing something other than null never gives null. */
  lemma {:induction false} DeserializeKeepsNonNull(env: Env, t: Type, j: Value)
    requires !j.Null? && Deserialize(env, t, j).Ok?
    ensures !Deserialize(env, t, j).value.Null?
    decreases t
  {
    match t
    case Concrete(_) =>
    case ArrayOf(s) => ArrayDeserialize(env, s, j.items);
    case MapOf(s) => MapDeserialize(env, s, j.entries);
    case StructOf(_, _) => StructDeserialize(env, t, j.entries);
    case NullableOf(c) => DeserializeKeepsNonNull(env, c, j);
  }

  /** Serializing a native value other than null never gives null. */
  lemma {:induction false} SerializeKeepsNonNull(env: Env, t: Type, v: Value)
    requires !v.Null? && Native(env, t, v)
    ensures !Serialize(env, t, v).Null?
    decreases t
  {
    match t
    case NullableOf(c) => SerializeKeepsNonNull(env, c, v);
    case _ =>
  }

  /** Whatever deserialize accepts, serialize turns back into the same JSON. */
  lemma {:induction false} SerializeAfterDeserialize(env: Env, t: Type, j: Value)
    requires UsesTime(t) ==> FormatInvertsParse(env.host)
    requires Deserialize(env, t, j).Ok?
    ensures Serialize(env, t, Deserialize(env, t, j).value) == j
    decreases t
  {
    match t
    case Concrete(c) =>
    case ArrayOf(s) =>
      ArrayDeserialize(env, s, j.items);
      forall i | 0 <= i < |j.items|
        ensures Deserialize(env, s, j.items[i]).Ok?
                && Serialize(env, s, Deserialize(env, s, j.items[i]).value) == j.items[i]
      {
        SerializeAfterDeserialize(env, s, j.items[i]);
      }
      ArrayBack(env, s, j.items);
    case MapOf(s) =>
      MapDeserialize(env, s, j.entries);
      forall i | 0 <= i < |j.entries|
        ensures Deserialize(env, s, j.entries[i].val).Ok?
                && Serialize(env, s, Deserialize(env, s, j.entries[i].val).value) == j.entries[i].val
      {
        SerializeAfterDeserialize(env, s, j.entries[i].val);
      }
      MapBack(env, s, j.entries);
    case StructOf(_, _) =>
      StructDeserialize(env, t, j.entries);
      forall i | 0 <= i < |j.entries|
        ensures Declared(t, j.entries[i].key) &&
                var s := SpaceOf(t, j.entries[i].key);
                Deserialize(env, s, j.entries[i].val).Ok?
                && Serialize(env, s, Deserialize(env, s, j.entries[i].val).value) == j.entries[i].val
      {
        if UsesTime(SpaceOf(t, j.entries[i].key)) {
          FieldUsesTime(t, j.entries[i].key);
        }
        SerializeAfterDeserialize(env, SpaceOf(t, j.entries[i].key), j.entries[i].val);
      }
      StructBack(env, t, j.entries);
    case NullableOf(c) =>
      if !j.Null? {
        DeserializeKeepsNonNull(env, c, j);
        SerializeAfterDeserialize(env, c, j);
      }
  }

  /** For a type without a DateTime inside, such as `{"Array": "Integer"}`,
      both round trips hold whatever the codec does. */
  lemma TimeFreeRoundTrips(env: Env, t: Type, j: Value, v: Value)
    requires !UsesTime(t)
    ensures Deserialize(env, t, j).Ok? ==> Serialize(env, t, Deserialize(env, t, j).value) == j
    ensures Native(env, t, v) ==> Deserialize(env, t, Serialize(env, t, v)) == Ok(v)
  {
    if Deserialize(env, t, j).Ok? {
      SerializeAfterDeserialize(env, t, j);
    }
    if Native(env, t, v) {
      DeserializeAfterSerialize(env, t, v);
    }
  }

  /** A list whose elements each come back from serialize comes back whole. */
  lemma ArrayBack(env: Env, s: Type, items: seq<Value>)
    requires Deserialize(env, ArrayOf(s), Arr(items)).Ok?
    requires forall i :: 0 <= i < |items| ==>
               Deserialize(env, s, items[i]).Ok? && Serialize(env, s, Deserialize(env, s, items[i]).value) == items[i]
    ensures Serialize(env, ArrayOf(s), Deserialize(env, ArrayOf(s), Arr(items)).value) == Arr(items)
  {
    ArrayDeserialize(env, s, items);
    var v := Deserialize(env, ArrayOf(s), Arr(items)).value;
    assert SerializeEach(env, ArrayOf(s), v.items) == items;
  }

  /** An object whose values each come back from serialize comes back whole. */
  lemma MapBack(env: Env, s: Type, entries: seq<Entry>)
    requires Deserialize(env, MapOf(s), Obj(entries)).Ok?
    requires forall i :: 0 <= i < |entries| ==>
               Deserialize(env, s, entries[i].val).Ok?
               && Serialize(env, s, Deserialize(env, s, entries[i].val).value) == entries[i].val
    ensures Serialize(env, MapOf(s), Deserialize(env, MapOf(s), Obj(entries)).value) == Obj(entries)
  {
    MapDeserialize(env, s, entries);
    var v := Deserialize(env, MapOf(s), Obj(entries)).value;
    var ws := SerializeEach(env, MapOf(s), Vals(v.entries));
    assert ws == Vals(entries);
    EntriesEqual(Rebuild(v.entries, ws), entries);
  }

  /** A struct object whose fields each come back from serialize comes back
      whole. */
  lemma StructBack(env: Env, t: Type, entries: seq<Entry>)
    requires t.StructOf? && Deserialize(env, t, Obj(entries)).Ok?
    requires forall i :: 0 <= i < |entries| ==>
               Declared(t, entries[i].key) &&
               var s := SpaceOf(t, entries[i].key);
               Deserialize(env, s, entries[i].val).Ok?
               && Serialize(env, s, Deserialize(env, s, entries[i].val).value) == entries[i].val
    ensures Serialize(env, t, Deserialize(env, t, Obj(entries)).value) == Obj(entries)
  {
    StructDeserialize(env, t, entries);
    var v := Deserialize(env, t, Obj(entries)).value;
    var ws := SerializeFields(env, t, v.entries);
    forall i | 0 <= i < |entries| ensures ws[i].val == entries[i].val {
      assert v.entries[i].key == Keys(v.entries)[i] == entries[i].key;
    }
    assert Vals(ws) == Vals(entries);
    EntriesEqual(ws, entries);
  }

  /** Whatever deserialize produces is a native value of the type. */
  lemma {:induction false} DeserializeGivesNative(env: Env, t: Type, j: Value)
    requires Deserialize(env, t, j).Ok?
    ensures Native(env, t, Deserialize(env, t, j).value)
    decreases t
  {
    var v := Deserialize(env, t, j).value;
    match t
    case Concrete(c) =>
    case ArrayOf(s) =>
      ArrayDeserialize(env, s, j.items);
      forall i | 0 <= i < |v.items| ensures Native(env, s, v.items[i]) {
        DeserializeGivesNative(env, s, j.items[i]);
      }
    case MapOf(s) =>
      MapDeserialize(env, s, j.entries);
      forall i | 0 <= i < |v.entries| ensures Native(env, s, v.entries[i].val) {
        DeserializeGivesNative(env, s, j.entries[i].val);
      }
    case StructOf(req, _) =>
      StructDeserialize(env, t, j.entries);
      forall i | 0 <= i < |v.entries|
        ensures Declared(t, v.entries[i].key) && Native(env, SpaceOf(t, v.entries[i].key), v.entries[i].val)
      {
        assert v.entries[i].key == Keys(v.entries)[i] == j.entries[i].key;
        DeserializeGivesNative(env, SpaceOf(t, j.entries[i].key), j.entries[i].val);
      }
      assert Keys(v.entries) == Keys(j.entries);
    case NullableOf(c) =>
      if !j.Null? {
        DeserializeGivesNative(env, c, j);
      }
  }

  /** Every native value survives serialize followed by deserialize. */
  lemma {:induction false} DeserializeAfterSerialize(env: Env, t: Type, v: Value)
    requires UsesTime(t) ==> ParseInvertsFormat(env.host)
    requires Native(env, t, v)
    ensures Deserialize(env, t, Serialize(env, t, v)) == Ok(v)
    decreases t
  {
    var w := Serialize(env, t, v);
    match t
    case Concrete(c) =>
      if c == DateTimeType {
        assert env.host.parseTime(env.host.formatTime(v.t)) == Some(v.t);
      }
    case ArrayOf(s) =>
      forall i | 0 <= i < |v.items| ensures Deserialize(env, s, w.items[i]) == Ok(v.items[i]) {
        DeserializeAfterSerialize(env, s, v.items[i]);
      }
      ArrayRoundTrip(env, s, v.items, w.items);
    case MapOf(s) =>
      assert Keys(w.entries) == Keys(v.entries);
      forall i | 0 <= i < |v.entries| ensures Deserialize(env, s, w.entries[i].val) == Ok(v.entries[i].val) {
        DeserializeAfterSerialize(env, s, v.entries[i].val);
        assert w.entries[i].val == Vals(w.entries)[i];
      }
      MapRoundTrip(env, s, v.entries, w.entries);
    case StructOf(req, _) =>
      assert Keys(w.entries) == Keys(v.entries);
      forall i | 0 <= i < |v.entries|
        ensures Deserialize(env, SpaceOf(t, w.entries[i].key), w.entries[i].val) == Ok(v.entries[i].val)
      {
        assert w.entries[i].key == Keys(w.entries)[i] == v.entries[i].key;
        if UsesTime(SpaceOf(t, v.entries[i].key)) {
          FieldUsesTime(t, v.entries[i].key);
        }
        DeserializeAfterSerialize(env, SpaceOf(t, v.entries[i].key), v.entries[i].val);
      }
      StructRoundTrip(env, t, v.entries, w.entries);
    case NullableOf(c) =>
      if !v.Null? {
        SerializeKeepsNonNull(env, c, v);
        DeserializeAfterSerialize(env, c, v);
      }
  }

  /** A list whose elements each deserialize back gives back the list. */
  lemma ArrayRoundTrip(env: Env, s: Type, items: seq<Value>, ws: seq<Value>)
    requires |ws| == |items|
    requires forall i :: 0 <= i < |items| ==> Deserialize(env, s, ws[i]) == Ok(items[i])
    ensures Deserialize(env, ArrayOf(s), Arr(ws)) == Ok(Arr(items))
  {
    ArrayDeserialize(env, s, ws);
    var r := Deserialize(env, ArrayOf(s), Arr(ws)).value;
    assert r.items == items;
  }

  /** An object whose values each deserialize back gives back the object. */
  lemma MapRoundTrip(env: Env, s: Type, entries: seq<Entry>, ws: seq<Entry>)
    requires Keys(ws) == Keys(entries)
    requires forall i :: 0 <= i < |entries| ==> Deserialize(env, s, ws[i].val) == Ok(entries[i].val)
    ensures Deserialize(env, MapOf(s), Obj(ws)) == Ok(Obj(entries))
  {
    MapDeserialize(env, s, ws);
    var r := Deserialize(env, MapOf(s), Obj(ws)).value;
    assert Vals(r.entries) == Vals(entries);
    EntriesEqual(r.entries, entries);
  }

  /** A struct value with every required field, only declared keys, and
      fields that each deserialize back, gives back the object. */
  lemma StructRoundTrip(env: Env, t: Type, entries: seq<Entry>, ws: seq<Entry>)
    requires t.StructOf?
    requires Keys(ws) == Keys(entries)
    requires forall i :: 0 <= i < |t.required| ==> t.required[i].name in Keys(entries)
    requires forall i :: 0 <= i < |entries| ==> Declared(t, entries[i].key)
    requires forall i :: 0 <= i < |entries| ==>
               Declared(t, ws[i].key) && Deserialize(env, SpaceOf(t, ws[i].key), ws[i].val) == Ok(entries[i].val)
    ensures Deserialize(env, t, Obj(ws)) == Ok(Obj(entries))
  {
    StructDeserialize(env, t, ws);
    var r := Deserialize(env, t, Obj(ws)).value;
    assert Vals(r.entries) == Vals(entries);
    EntriesEqual(r.entries, entries);
  }
}
