/** The values the engine works on. Python uses the same objects for decoded
    JSON and for native values, so one datatype serves for both: the JSON
    constructors, plus `Time` for the datetime objects DateTime produces. */
module Json {
  import opened Wrappers

  /** A timestamp as the RFC 3339 codec returns it; `offsetMinutes` is None
      for a naive time. The engine never looks inside it. */
  datatype DateTime = DateTime(year: int, month: int, day: int,
                               hour: int, minute: int, second: int,
                               microsecond: int, offsetMinutes: Option<int>)

  datatype Value =
    | Null
    | Bool(b: bool)
    | Int(i: int)
    | Float(r: real)
    | Str(s: string)
    | Arr(items: seq<Value>)
    | Obj(entries: seq<Entry>)   // a dict, in its iteration order
    | Time(t: DateTime)

  datatype Entry = Entry(key: string, val: Value)

  /** The keys of an object, in iteration order. */
  function Keys(entries: seq<Entry>): (ks: seq<string>)
    ensures |ks| == |entries|
    ensures forall i :: 0 <= i < |entries| ==> ks[i] == entries[i].key
  {
    seq(|entries|, i requires 0 <= i < |entries| => entries[i].key)
  }

  /** The values of an object, in iteration order. */
  function Vals(entries: seq<Entry>): (vs: seq<Value>)
    ensures |vs| == |entries|
    ensures forall i :: 0 <= i < |entries| ==> vs[i] == entries[i].val
  {
    seq(|entries|, i requires 0 <= i < |entries| => entries[i].val)
  }

  /** Position of the first entry with key `k`, or |entries| when there is none. */
  function Find(entries: seq<Entry>, k: string): (i: nat)
    ensures i <= |entries|
    ensures i < |entries| ==> entries[i].key == k
    ensures forall j :: 0 <= j < i ==> entries[j].key != k
    ensures i == |entries| <==> k !in Keys(entries)
    decreases |entries|
  {
    if |entries| == 0 then 0
    else if entries[0].key == k then 0
    else 1 + Find(entries[1..], k)
  }

  /** The same keys, in the same order, paired with new values. */
  function Rebuild(entries: seq<Entry>, vs: seq<Value>): (r: seq<Entry>)
    requires |vs| == |entries|
    ensures Keys(r) == Keys(entries)
    ensures Vals(r) == vs
  {
    seq(|entries|, i requires 0 <= i < |entries| => Entry(entries[i].key, vs[i]))
  }
}
