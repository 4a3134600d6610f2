/** The traversal loop shared by the composite deserializers of core.py:
    deserialize each child, keep going after a failure, and re-yield every
    child error with the child's index or key prepended. */
module Aggregate {
  import opened Wrappers
  import opened Json
  import opened Failures
  import opened ErrorProtocol

  /** What deserializing one child gave: a value, or what it raised. */
  type Outcome = Result<Value, Raised>

  /** Every failed child reports at least one error. */
  ghost predicate Sound(rs: seq<Outcome>)
  {
    forall i :: 0 <= i < |rs| && rs[i].Err? ==> |Iterate(rs[i].error)| > 0
  }

  /** The loop's state after some children: the values appended so far, the
      errors yielded so far, and the `fail` flag. */
  datatype Gathered = Gathered(values: seq<Value>, errors: seq<Invalid>, failed: bool)

  /** The loop run over the children's outcomes; `segs[i]` is the index or
      key that child i's errors get prepended. */
  function Gather(rs: seq<Outcome>, segs: seq<Segment>): (g: Gathered)
    requires |rs| == |segs|
    ensures g.failed <==> exists i :: 0 <= i < |rs| && rs[i].Err?
    ensures Sound(rs) ==> (g.failed <==> |g.errors| > 0)
    ensures !g.failed ==> |g.values| == |rs|
    ensures !g.failed ==> forall i :: 0 <= i < |rs| ==> g.values[i] == rs[i].value
    decreases |rs|
  {
    if |rs| == 0 then Gathered([], [], false)
    else
      var n := |rs| - 1;
      var g := Gather(rs[..n], segs[..n]);
      match rs[n]
      case Ok(v) => Gathered(g.values + [v], g.errors, g.failed)
      case Err(r) => Gathered(g.values, g.errors + PrependAll(segs[n], Iterate(r)), true)
  }

  /** The errors of the children, front to back, each relocated under its
      own index or key: the order the loop must reproduce. */
  function Relocated(rs: seq<Outcome>, segs: seq<Segment>): seq<Invalid>
    requires |rs| == |segs|
    decreases |rs|
  {
    if |rs| == 0 then []
    else
      (if rs[0].Err? then PrependAll(segs[0], Iterate(rs[0].error)) else [])
      + Relocated(rs[1..], segs[1..])
  }

  lemma {:induction false} RelocatedSnoc(rs: seq<Outcome>, segs: seq<Segment>)
    requires |rs| == |segs| && |rs| > 0
    ensures var n := |rs| - 1;
            Relocated(rs, segs) == Relocated(rs[..n], segs[..n])
              + (if rs[n].Err? then PrependAll(segs[n], Iterate(rs[n].error)) else [])
    decreases |rs|
  {
    var n := |rs| - 1;
    if n > 0 {
      RelocatedSnoc(rs[1..], segs[1..]);
      assert rs[1..][..n - 1] == rs[..n][1..];
      assert segs[1..][..n - 1] == segs[..n][1..];
    }
  }

  /** The loop yields exactly the relocated child errors, in child order. */
  lemma {:induction false} GatherYieldsRelocated(rs: seq<Outcome>, segs: seq<Segment>)
    requires |rs| == |segs|
    ensures Gather(rs, segs).errors == Relocated(rs, segs)
    decreases |rs|
  {
    if |rs| > 0 {
      var n := |rs| - 1;
      GatherYieldsRelocated(rs[..n], segs[..n]);
      RelocatedSnoc(rs, segs);
    }
  }

  /** Every yielded error is some failed child's error, with that child's
      segment in front and its own location after it. */
  lemma {:induction false} RelocatedOrigin(rs: seq<Outcome>, segs: seq<Segment>, e: Invalid)
    requires |rs| == |segs|
    requires e in Relocated(rs, segs)
    ensures exists i, d :: 0 <= i < |rs| && rs[i].Err? && d in Iterate(rs[i].error)
                           && e == PrependLocation(d, segs[i])
    decreases |rs|
  {
    if rs[0].Err? && e in PrependAll(segs[0], Iterate(rs[0].error)) {
      var k :| 0 <= k < |Iterate(rs[0].error)| && e == PrependAll(segs[0], Iterate(rs[0].error))[k];
      assert e == PrependLocation(Iterate(rs[0].error)[k], segs[0]);
    } else {
      RelocatedOrigin(rs[1..], segs[1..], e);
      var i, d :| 0 <= i < |rs| - 1 && rs[1..][i].Err? && d in Iterate(rs[1..][i].error)
                  && e == PrependLocation(d, segs[1..][i]);
      assert rs[i + 1] == rs[1..][i];
    }
  }

  /** Each failed child contributes all of its errors. */
  lemma {:induction false} RelocatedComplete(rs: seq<Outcome>, segs: seq<Segment>, i: nat, d: Invalid)
    requires |rs| == |segs| && i < |rs|
    requires rs[i].Err? && d in Iterate(rs[i].error)
    ensures PrependLocation(d, segs[i]) in Relocated(rs, segs)
    decreases |rs|
  {
    if i == 0 {
      var k :| 0 <= k < |Iterate(rs[0].error)| && Iterate(rs[0].error)[k] == d;
      assert PrependAll(segs[0], Iterate(rs[0].error))[k] == PrependLocation(d, segs[0]);
    } else {
      RelocatedComplete(rs[1..], segs[1..], i - 1, d);
    }
  }

  /** Exactly the failed children's errors, each under its child's segment. */
  lemma RelocatedMembership(rs: seq<Outcome>, segs: seq<Segment>, e: Invalid)
    requires |rs| == |segs|
    ensures e in Relocated(rs, segs) <==>
              exists i, d :: 0 <= i < |rs| && rs[i].Err? && d in Iterate(rs[i].error)
                             && e == PrependLocation(d, segs[i])
  {
    if e in Relocated(rs, segs) {
      RelocatedOrigin(rs, segs, e);
    }
    if exists i, d :: 0 <= i < |rs| && rs[i].Err? && d in Iterate(rs[i].error)
                      && e == PrependLocation(d, segs[i]) {
      var i, d :| 0 <= i < |rs| && rs[i].Err? && d in Iterate(rs[i].error)
                  && e == PrependLocation(d, segs[i]);
      RelocatedComplete(rs, segs, i, d);
    }
  }

  /** The number of yielded errors is the sum of the children's counts. */
  function ErrorCount(rs: seq<Outcome>): nat
    decreases |rs|
  {
    if |rs| == 0 then 0
    else (if rs[0].Err? then |Iterate(rs[0].error)| else 0) + ErrorCount(rs[1..])
  }

  lemma {:induction false} RelocatedCount(rs: seq<Outcome>, segs: seq<Segment>)
    requires |rs| == |segs|
    ensures |Relocated(rs, segs)| == ErrorCount(rs)
    decreases |rs|
  {
    if |rs| > 0 {
      RelocatedCount(rs[1..], segs[1..]);
    }
  }

  /** The array segments 0, 1, 2, ... */
  function IndexSegments(n: nat): (segs: seq<Segment>)
    ensures |segs| == n
    ensures forall i :: 0 <= i < n ==> segs[i] == Index(i)
  {
    seq(n, i requires 0 <= i < n => Index(i))
  }

  /** The object segments, one key per entry. */
  function KeySegments(entries: seq<Entry>): (segs: seq<Segment>)
    ensures |segs| == |entries|
    ensures forall i :: 0 <= i < |entries| ==> segs[i] == Key(entries[i].key)
  {
    seq(|entries|, i requires 0 <= i < |entries| => Key(entries[i].key))
  }
}
