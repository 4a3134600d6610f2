/** The pattern of ColorType in examples.py: `re.match('^#[0-9a-f]{6}$', value)`. */
module ColorPattern {

  predicate LowerHex(c: char)
  {
    '0' <= c <= '9' || 'a' <= c <= 'f'
  }

  /** Python's `$` also matches just before a final line break, so one
      trailing "\n" is accepted after the six digits. */
  predicate Matches(s: string)
  {
    && (|s| == 7 || (|s| == 8 && s[7] == '\n'))
    && s[0] == '#'
    && forall i :: 1 <= i < 7 ==> LowerHex(s[i])
  }

  /** The pattern read as a grammar: "#", six lowercase hex digits, and
      either nothing or a single line break. */
  ghost predicate Grammar(s: string)
  {
    exists digits: string, tail: string ::
      && |digits| == 6
      && (forall i :: 0 <= i < 6 ==> LowerHex(digits[i]))
      && (tail == "" || tail == "\n")
      && s == "#" + digits + tail
  }

  lemma MatchesIsGrammar(s: string)
    ensures Matches(s) <==> Grammar(s)
  {
    if Matches(s) {
      var digits, tail := s[1..7], s[7..];
      assert s == "#" + digits + tail;
      assert tail == "" || tail == "\n";
    }
    if Grammar(s) {
      var digits: string, tail: string :|
        && |digits| == 6
        && (forall i :: 0 <= i < 6 ==> LowerHex(digits[i]))
        && (tail == "" || tail == "\n")
        && s == "#" + digits + tail;
      assert forall i :: 1 <= i < 7 ==> s[i] == digits[i - 1];
    }
  }

  /** Upper-case digits, a missing "#", five or seven digits, and anything
      after a trailing line break are all rejected; the line break itself is not. */
  lemma MatchesExamples()
    ensures Matches("#a0b1c2")
    ensures Matches("#abcdef\n")
    ensures !Matches("#ABCDEF")
    ensures !Matches("abcdef0")
    ensures !Matches("#abcde")
    ensures !Matches("#abcdef0")
    ensures !Matches("#abcdef\n\n")
  {
    assert "#ABCDEF"[1] == 'A' && !LowerHex('A');
    assert !LowerHex('\n');
  }
}
