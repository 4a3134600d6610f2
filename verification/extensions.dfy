/** The two example extension types of examples.py: Color, a string
    pattern, and Nullable, a generic wrapper that admits null. */
module Extensions {
  import opened Wrappers
  import opened Json
  import opened Failures
  import opened ErrorProtocol
  import opened Registry
  import opened Resolution
  import opened Conversion
  import opened RoundTrip
  import ColorPattern

  /** Color accepts exactly the strings of the pattern's grammar; anything
      that String rejects is rejected before the pattern is tried. */
  lemma ColorMembership(env: Env, v: Value)
    ensures Check(env, Concrete(ColorType), v) <==> v.Str? && ColorPattern.Grammar(v.s)
    ensures Check(env, Concrete(ColorType), v) ==> Check(env, Concrete(StringType), v)
  {
    if v.Str? {
      ColorPattern.MatchesIsGrammar(v.s);
    }
  }

  /** Color has no deserialize of its own: members come back unchanged, and
      anything else is one bare error at the root. */
  lemma ColorDeserialize(env: Env, v: Value)
    ensures var r := Deserialize(env, Concrete(ColorType), v);
            && (r.Ok? <==> v.Str? && ColorPattern.Grammar(v.s))
            && (r.Ok? ==> r.value == v)
            && (r.Err? ==> r.error == Single(Invalid(NotAMember, [])))
  {
    ColorMembership(env, v);
  }

  /** A few colors: the trailing line break slips through `$`. */
  lemma ColorExamples(env: Env)
    ensures Check(env, Concrete(ColorType), Str("#c0ffee"))
    ensures Check(env, Concrete(ColorType), Str("#c0ffee\n"))
    ensures !Check(env, Concrete(ColorType), Str("#C0FFEE"))
    ensures !Check(env, Concrete(ColorType), Int(0xc0ffee))
  {
    assert "#C0FFEE"[1] == 'C' && !ColorPattern.LowerHex('C');
  }

  /** Nullable defines `__init__`, so it is generic: the bare name is a kind
      error, and `{"Nullable": s}` resolves exactly when `s` does, to a
      wrapper around what `s` resolves to. */
  lemma NullableResolution(rv: Resolver, s: Value)
    requires Lookup(rv, "Nullable") == Ok(Implementation(NullableType))
    ensures Resolve(rv, Str("Nullable")) == Err(NotConcrete("Nullable"))
    ensures Resolve(rv, Obj([Entry("Nullable", s)])).Ok? <==> Resolve(rv, s).Ok?
    ensures Resolve(rv, s).Ok? ==> Resolve(rv, Obj([Entry("Nullable", s)])) == Ok(NullableOf(Resolve(rv, s).value))
  {
  }

  /** Null maps to null both ways; anything else is the child's business,
      its errors passed on exactly as raised, locations untouched. */
  lemma NullableDelegates(env: Env, child: Type, v: Value)
    ensures Deserialize(env, NullableOf(child), Null) == Ok(Null)
    ensures Serialize(env, NullableOf(child), Null) == Null
    ensures !v.Null? ==> Deserialize(env, NullableOf(child), v) == Deserialize(env, child, v)
    ensures !v.Null? ==> Serialize(env, NullableOf(child), v) == Serialize(env, child, v)
  {
  }

  /** Nullable round-trips a JSON value whenever its child does. */
  lemma NullableRoundTrip(env: Env, child: Type, j: Value)
    requires Deserialize(env, NullableOf(child), j).Ok?
    requires !j.Null? ==> Serialize(env, child, Deserialize(env, child, j).value) == j
    ensures Serialize(env, NullableOf(child), Deserialize(env, NullableOf(child), j).value) == j
  {
    if !j.Null? {
      DeserializeKeepsNonNull(env, child, j);
    }
  }
}
