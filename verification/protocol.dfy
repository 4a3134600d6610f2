/** The exception protocol of util.py: iterable errors and the
    ErrorGenerator decorator that turns "yield errors, or raise ForceReturn
    with a value" into "return the value, or raise every error at once". */
module ErrorProtocol {
  import opened Wrappers
  import opened Json
  import opened Failures

  /** An IterableError as it is raised: a bare `Invalid`, or a `util.Errors`
      wrapping the errors a generator yielded. The difference is visible to
      `T.check`, which catches only the first. */
  datatype Raised = Single(invalid: Invalid) | Many(errors: seq<Invalid>)

  /** Iterating a raised error: a bare `Invalid` yields itself once, an
      `Errors` yields what its generator yields. */
  function Iterate(r: Raised): (es: seq<Invalid>)
    ensures r.Single? ==> es == [r.invalid]
    ensures r.Many? ==> es == r.errors
  {
    match r
    case Single(e) => [e]
    case Many(es) => es
  }

  /** A leaf `Invalid` acts as a one-element error list. */
  lemma BareInvalidIteratesOnce(e: Invalid)
    ensures Iterate(Single(e)) == [e]
    ensures |Iterate(Single(e))| == 1
  {
  }

  /** A decorated function's body run to completion: the errors it yields in
      order, and the value of the ForceReturn it raises last, if any. */
  datatype Trace = Trace(yielded: seq<Invalid>, forced: Option<Value>)

  /** What the caller of a decorated function observes. */
  datatype Call =
    | Returned(value: Value)
      // util.Errors; iterating it gives `errors`, then raises ForceReturn(stray) if present
    | Raised(errors: seq<Invalid>, stray: Option<Value>)
    | IncorrectGenerator

  /** `ErrorGenerator.__call__`: a ForceReturn before the first yield is the
      return value; a first yield raises Errors over every yield, the first
      included; neither is IncorrectErrorGenerator. */
  function RunErrorGenerator(tr: Trace): (c: Call)
    ensures c.Returned? <==> |tr.yielded| == 0 && tr.forced.Some?
    ensures c.Returned? ==> c.value == tr.forced.value
    ensures c.IncorrectGenerator? <==> |tr.yielded| == 0 && tr.forced.None?
    ensures c.Raised? ==> |c.errors| > 0 && c.errors == tr.yielded && c.stray == tr.forced
  {
    if |tr.yielded| > 0 then Raised(tr.yielded, tr.forced)
    else if tr.forced.Some? then Returned(tr.forced.value)
    else IncorrectGenerator
  }

  /** The discipline every composite body keeps: it raises ForceReturn
      exactly when it has yielded nothing. */
  predicate Disciplined(tr: Trace)
  {
    tr.forced.Some? <==> |tr.yielded| == 0
  }

  /** Under that discipline the decorator neither reports an incorrect
      generator nor lets a ForceReturn escape to whoever iterates the errors. */
  lemma DisciplinedNeverMisfires(tr: Trace)
    requires Disciplined(tr)
    ensures var c := RunErrorGenerator(tr);
            c.Returned? || (c.Raised? && c.stray.None?)
  {
  }

  /** A body that yields nothing and never forces is the one the decorator
      rejects. */
  lemma SilentBodyIsIncorrect()
    ensures RunErrorGenerator(Trace([], None)) == IncorrectGenerator
    ensures !Disciplined(Trace([], None))
  {
  }

  /** The decorated call of a disciplined body, as the result it amounts to:
      the forced value, or util.Errors over every yielded error. */
  function FromGenerator(tr: Trace): (r: Result<Value, Raised>)
    requires Disciplined(tr)
    ensures r.Ok? <==> |tr.yielded| == 0
    ensures r.Ok? ==> r.value == tr.forced.value
    ensures r.Err? ==> r.error == Many(tr.yielded) && |Iterate(r.error)| > 0
  {
    var c := RunErrorGenerator(tr);
    if c.Returned? then Ok(c.value)
    else if c.Raised? then Err(Many(c.errors))
    else assert false; Err(Many(tr.yielded))
  }
}
