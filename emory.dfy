/** The Emory challenge handler: a greeting for "hello", an unfinished
    branch for messages that mention "joke" anywhere, a fallback otherwise. */
module Emory {
  import opened AsciiText
  import opened Replies

  const COMMAND: string := "joke"

  /** `handle_message`: lower-case the message, then test for "hello"
      anywhere, then for "joke" anywhere. The joke branch is the workshop's
      unfinished `pass`, so it returns no string. */
  function HandleMessage(message: string): (r: Option<string>)
    ensures HasWord(message, "hello") ==> r == Some(GREETING)
    ensures !HasWord(message, "hello") && HasWord(message, COMMAND) ==> r == None
    ensures !HasWord(message, "hello") && !HasWord(message, COMMAND) ==> r == Some(FALLBACK)
  {
    var lowered := Lower(message);
    ContainsLowerIff(message, "hello");
    ContainsLowerIff(message, COMMAND);
    if Contains(lowered, "hello") then
      Some(GREETING)
    else if Contains(lowered, COMMAND) then
      None
    else
      Some(FALLBACK)
  }

  /** Every message gets exactly one of the three outcomes, each under its own
      condition. */
  lemma ExactlyOneOutcome(message: string)
    ensures IsOutcome(HandleMessage(message))
    ensures HandleMessage(message) == Some(GREETING) <==> HasWord(message, "hello")
    ensures HandleMessage(message) == None <==> !HasWord(message, "hello") && HasWord(message, COMMAND)
    ensures HandleMessage(message) == Some(FALLBACK) <==> !HasWord(message, "hello") && !HasWord(message, COMMAND)
  {
  }

  /** Matching ignores case: a message and its lower-cased form get the same reply. */
  lemma CaseInsensitive(message: string)
    ensures HandleMessage(Lower(message)) == HandleMessage(message)
  {
    LowerIdempotent(message);
  }

  /** "hello" wins over the joke command. */
  lemma HelloBeforeJoke()
    ensures HandleMessage("joke hello") == Some(GREETING)
  {
    assert MatchesAt("joke hello", "hello", 5);
  }

  /** "joke" selects the unfinished branch in any case, also inside a longer word. */
  lemma JokeInCapitals()
    ensures HandleMessage("JOKES") == None
  {
    var m := "JOKES";
    AbsentLetter(m, "hello", 'l');
    assert HasWord(m, COMMAND) by { assert MatchesAt(m, COMMAND, 0); }
  }

  /** "joke" selects the unfinished branch wherever it stands. */
  lemma JokeAtEnd()
    ensures HandleMessage("tell me a joke") == None
  {
    var m := "tell me a joke";
    AbsentLetter(m, "hello", 'h');
    assert HasWord(m, COMMAND) by { assert MatchesAt(m, COMMAND, 10); }
  }

  /** A message with neither keyword gets the fallback. */
  lemma NoKeyword()
    ensures HandleMessage("thanks") == Some(FALLBACK)
  {
    var m := "thanks";
    AbsentLetter(m, "hello", 'l');
    AbsentLetter(m, COMMAND, 'j');
  }

  /** The empty message gets the fallback. */
  lemma EmptyMessage()
    ensures HandleMessage("") == Some(FALLBACK)
  {
  }

  /** Lower-casing is ASCII only: the KELVIN SIGN (U+212A) is left as it is,
      so "JO" KELVIN-SIGN "E" does not mention "joke" and gets the fallback.
      Python's `str.lower()` maps that sign to 'k' and would take the joke
      branch instead. */
  lemma KelvinSignNotLowered()
    ensures HandleMessage("JO\U{212A}E") == Some(FALLBACK)
  {
    var m := "JO\U{212A}E";
    AbsentLetter(m, "hello", 'l');
    AbsentLetter(m, COMMAND, 'k');
  }
}
