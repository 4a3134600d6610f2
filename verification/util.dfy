/** Error rendering from util.py: the slash-joined location string and the
    multi-line report. */
module Util {
  import opened Failures

  /** The digits of `n`, as Python's `str` writes a non-negative int. */
  function DecimalText(n: nat): (s: string)
    ensures |s| > 0
    ensures forall i :: 0 <= i < |s| ==> '0' <= s[i] <= '9'
    decreases n
  {
    var d := ['0' + (n % 10) as char];
    if n < 10 then d else DecimalText(n / 10) + d
  }

  /** `str(segment)`: an index in decimal, a key as itself. */
  function SegmentText(s: Segment): string
  {
    match s
    case Index(i) => DecimalText(i)
    case Key(k) => k
  }

  function Texts(loc: seq<Segment>): (ts: seq<string>)
    ensures |ts| == |loc|
    ensures forall i :: 0 <= i < |loc| ==> ts[i] == SegmentText(loc[i])
  {
    seq(|loc|, i requires 0 <= i < |loc| => SegmentText(loc[i]))
  }

  /** `'/'.join(parts)`. */
  function Join(parts: seq<string>): string
  {
    if |parts| == 0 then ""
    else if |parts| == 1 then parts[0]
    else parts[0] + "/" + Join(parts[1..])
  }

  /** `ghetto_json_pointer`: a slash, then the segments' texts joined by
      slashes. Nothing inside a key is escaped. */
  function JsonPointer(loc: seq<Segment>): (p: string)
    ensures |p| > 0 && p[0] == '/'
    ensures |loc| == 0 ==> p == "/"
  {
    "/" + Join(Texts(loc))
  }

  /** Cuts a string at every '/', the inverse of `Join` on slash-free parts. */
  function Split(s: string): (parts: seq<string>)
    ensures |parts| > 0
    decreases |s|
  {
    if |s| == 0 then [""]
    else if s[0] == '/' then [""] + Split(s[1..])
    else
      var rest := Split(s[1..]);
      [[s[0]] + rest[0]] + rest[1..]
  }

  lemma {:induction false} SplitSlashFree(p: string)
    requires '/' !in p
    ensures Split(p) == [p]
    decreases |p|
  {
    if |p| > 0 {
      assert '/' !in p[1..];
      SplitSlashFree(p[1..]);
      assert [p[0]] + p[1..] == p;
    }
  }

  lemma {:induction false} SplitAfterPart(p: string, tail: string)
    requires '/' !in p
    ensures Split(p + "/" + tail) == [p] + Split(tail)
    decreases |p|
  {
    if |p| == 0 {
      assert p + "/" + tail == "/" + tail;
      assert ("/" + tail)[1..] == tail;
    } else {
      var s := p + "/" + tail;
      assert s[0] == p[0];
      assert s[1..] == p[1..] + "/" + tail;
      assert '/' !in p[1..];
      SplitAfterPart(p[1..], tail);
      assert [p[0]] + p[1..] == p;
    }
  }

  /** Splitting a join of slash-free parts gives the parts back. */
  lemma {:induction false} SplitJoin(parts: seq<string>)
    requires |parts| > 0
    requires forall i :: 0 <= i < |parts| ==> '/' !in parts[i]
    ensures Split(Join(parts)) == parts
    decreases |parts|
  {
    if |parts| == 1 {
      SplitSlashFree(parts[0]);
    } else {
      SplitAfterPart(parts[0], Join(parts[1..]));
      SplitJoin(parts[1..]);
      assert [parts[0]] + parts[1..] == parts;
    }
  }

  /** Every pointer starts with a slash and then carries the segments' texts:
      whenever no text contains a slash, the text list can be read back. */
  lemma JsonPointerReadBack(loc: seq<Segment>)
    requires |loc| > 0
    requires forall i :: 0 <= i < |loc| ==> '/' !in SegmentText(loc[i])
    ensures |JsonPointer(loc)| > 0 && JsonPointer(loc)[0] == '/'
    ensures Split(JsonPointer(loc)[1..]) == Texts(loc)
  {
    assert JsonPointer(loc)[1..] == Join(Texts(loc));
    SplitJoin(Texts(loc));
  }

  /** Consequently two such non-empty locations with one pointer have the
      same segment texts. */
  lemma JsonPointerInjectiveOnSlashFree(a: seq<Segment>, b: seq<Segment>)
    requires |a| > 0 && |b| > 0
    requires forall i :: 0 <= i < |a| ==> '/' !in SegmentText(a[i])
    requires forall i :: 0 <= i < |b| ==> '/' !in SegmentText(b[i])
    requires JsonPointer(a) == JsonPointer(b)
    ensures Texts(a) == Texts(b)
  {
    JsonPointerReadBack(a);
    JsonPointerReadBack(b);
  }

  /** Without escaping (section 4 of RFC 6901 would write "~1" for a slash
      in a key), distinct locations can share a pointer: a key holding a
      slash, an index and its decimal key, and the root and the empty key. */
  lemma JsonPointerNotInjective()
    ensures [Key("a/b")] != [Key("a"), Key("b")]
    ensures JsonPointer([Key("a/b")]) == JsonPointer([Key("a"), Key("b")]) == "/a/b"
    ensures JsonPointer([Index(1)]) == JsonPointer([Key("1")]) == "/1"
    ensures JsonPointer([]) == JsonPointer([Key("")]) == "/"
  {
    assert DecimalText(1) == "1";
    assert Texts([Key("a"), Key("b")]) == ["a", "b"];
    assert Texts([Index(1)]) == ["1"];
  }

  function Spaces(n: nat): (s: string)
    ensures |s| == n
    ensures forall i :: 0 <= i < n ==> s[i] == ' '
  {
    seq(n, i => ' ')
  }

  /** The spaces that put the message at column 10 when the pointer is shorter. */
  function Padding(pointer: string): string
  {
    if |pointer| < 10 then Spaces(10 - |pointer|) else ""
  }

  function Max(a: int, b: int): int { if a < b then b else a }

  /** One line of the report: pointer, padding, message, newline. */
  function FormatLine(message: string, location: seq<Segment>): string
  {
    var pointer := JsonPointer(location);
    pointer + Padding(pointer) + message + "\n"
  }

  /** A line starts with the pointer, is blank up to column max(10, |pointer|),
      where the message starts, and ends after the message with its only
      line break when the message and pointer hold none. */
  lemma FormatLineLayout(message: string, location: seq<Segment>)
    ensures var p := JsonPointer(location);
            var line := FormatLine(message, location);
            && |line| == Max(10, |p|) + |message| + 1
            && line[..|p|] == p
            && (forall i :: |p| <= i < Max(10, |p|) ==> line[i] == ' ')
            && line[Max(10, |p|)..] == message + "\n"
  {
    var p := JsonPointer(location);
    var line := FormatLine(message, location);
    assert line == p + Padding(p) + message + "\n";
    assert |p + Padding(p)| == Max(10, |p|);
    assert line[Max(10, |p|)..] == message + "\n";
  }

  /** The lines of all (message, location) pairs, in order. */
  function Lines(errors: seq<(string, seq<Segment>)>): string
    decreases |errors|
  {
    if |errors| == 0 then ""
    else Lines(errors[..|errors| - 1]) + FormatLine(errors[|errors| - 1].0, errors[|errors| - 1].1)
  }

  /** `format_multiple_errors`: a leading newline, then one line per pair. */
  function FormatMultipleErrors(errors: seq<(string, seq<Segment>)>): (r: string)
    ensures |r| > 0 && r[0] == '\n'
    ensures |errors| == 0 ==> r == "\n"
  {
    "\n" + Lines(errors)
  }

  /** The source's accumulating loop computes the report. */
  method FormatErrors(errors: seq<(string, seq<Segment>)>) returns (ret: string)
    ensures ret == FormatMultipleErrors(errors)
  {
    ret := "\n";
    var i := 0;
    while i < |errors|
      invariant 0 <= i <= |errors|
      invariant ret == "\n" + Lines(errors[..i])
    {
      var message := errors[i].0;
      var pointer := JsonPointer(errors[i].1);
      var line := pointer;
      if |pointer| < 10 {
        line := line + Spaces(10 - |pointer|);
      }
      line := line + message + "\n";
      assert line == FormatLine(message, errors[i].1);
      ReportSnoc(errors, i, ret);
      ret := ret + line;
      i := i + 1;
    }
    assert errors[..|errors|] == errors;
  }

  /** Appending the next pair's line to the report so far gives the report
      of one more pair. */
  lemma ReportSnoc(errors: seq<(string, seq<Segment>)>, i: nat, ret: string)
    requires i < |errors| && ret == "\n" + Lines(errors[..i])
    ensures ret + FormatLine(errors[i].0, errors[i].1) == "\n" + Lines(errors[..i + 1])
  {
    assert errors[..i + 1][..i] == errors[..i];
  }

  function CountNewlines(s: string): nat
    decreases |s|
  {
    if |s| == 0 then 0 else (if s[|s| - 1] == '\n' then 1 else 0) + CountNewlines(s[..|s| - 1])
  }

  lemma {:induction false} CountNewlinesAppend(a: string, b: string)
    ensures CountNewlines(a + b) == CountNewlines(a) + CountNewlines(b)
    decreases |b|
  {
    if |b| > 0 {
      assert (a + b)[..|a + b| - 1] == a + b[..|b| - 1];
      CountNewlinesAppend(a, b[..|b| - 1]);
    } else {
      assert a + b == a;
    }
  }

  lemma {:induction false} CountNewlinesNone(s: string)
    requires '\n' !in s
    ensures CountNewlines(s) == 0
    decreases |s|
  {
    if |s| > 0 {
      assert '\n' !in s[..|s| - 1];
      CountNewlinesNone(s[..|s| - 1]);
    }
  }

  /** No key text carries a line break. */
  predicate SingleLine(message: string, location: seq<Segment>)
  {
    && '\n' !in message
    && forall i :: 0 <= i < |location| ==> '\n' !in SegmentText(location[i])
  }

  lemma JoinNoNewline(parts: seq<string>)
    requires forall i :: 0 <= i < |parts| ==> '\n' !in parts[i]
    ensures '\n' !in Join(parts)
    decreases |parts|
  {
    if |parts| > 1 {
      JoinNoNewline(parts[1..]);
    }
  }

  /** The report has exactly one line break per error plus the leading one,
      as long as no message or key holds a line break of its own. */
  lemma {:induction false} FormatMultipleErrorsLineCount(errors: seq<(string, seq<Segment>)>)
    requires forall i :: 0 <= i < |errors| ==> SingleLine(errors[i].0, errors[i].1)
    ensures CountNewlines(FormatMultipleErrors(errors)) == |errors| + 1
  {
    LinesCount(errors);
    CountNewlinesAppend("\n", Lines(errors));
    assert CountNewlines("\n") == 1 by {
      assert "\n"[..0] == "";
    }
  }

  lemma {:induction false} LinesCount(errors: seq<(string, seq<Segment>)>)
    requires forall i :: 0 <= i < |errors| ==> SingleLine(errors[i].0, errors[i].1)
    ensures CountNewlines(Lines(errors)) == |errors|
    decreases |errors|
  {
    if |errors| > 0 {
      var n := |errors| - 1;
      var (m, loc) := errors[n];
      var p := JsonPointer(loc);
      LinesCount(errors[..n]);
      JoinNoNewline(Texts(loc));
      assert '\n' !in p;
      assert '\n' !in Padding(p);
      var body := p + Padding(p) + m;
      assert '\n' !in body;
      CountNewlinesNone(body);
      CountNewlinesAppend(body, "\n");
      assert CountNewlines("\n") == 1 by {
        assert "\n"[..0] == "";
      }
      assert FormatLine(m, loc) == body + "\n";
      CountNewlinesAppend(Lines(errors[..n]), FormatLine(m, loc));
    }
  }
}
