/** The Columbia challenge handler: a greeting for "hello", an unfinished
    branch for messages that begin with "weather", a fallback otherwise. */
module Columbia {
  import opened AsciiText
  import opened Replies

  const COMMAND: string := "weather"

  /** `handle_message`: lower-case the message, then test for "hello"
      anywhere, then for a "weather" prefix. The weather branch is the
      workshop's unfinished `pass`, so it returns no string. */
  function HandleMessage(message: string): (r: Option<string>)
    ensures HasWord(message, "hello") ==> r == Some(GREETING)
    ensures !HasWord(message, "hello") && HasPrefix(message, COMMAND) ==> r == None
    ensures !HasWord(message, "hello") && !HasPrefix(message, COMMAND) ==> r == Some(FALLBACK)
  {
    var lowered := Lower(message);
    ContainsLowerIff(message, "hello");
    StartsWithLowerIff(message, COMMAND);
    if Contains(lowered, "hello") then
      Some(GREETING)
    else if StartsWith(lowered, COMMAND) then
      None
    else
      Some(FALLBACK)
  }

  /** Every message gets exactly one of the three outcomes, each under its own
      condition. */
  lemma ExactlyOneOutcome(message: string)
    ensures IsOutcome(HandleMessage(message))
    ensures HandleMessage(message) == Some(GREETING) <==> HasWord(message, "hello")
    ensures HandleMessage(message) == None <==> !HasWord(message, "hello") && HasPrefix(message, COMMAND)
    ensures HandleMessage(message) == Some(FALLBACK) <==> !HasWord(message, "hello") && !HasPrefix(message, COMMAND)
  {
  }

  /** Matching ignores case: a message and its lower-cased form get the same reply. */
  lemma CaseInsensitive(message: string)
    ensures HandleMessage(Lower(message)) == HandleMessage(message)
  {
    LowerIdempotent(message);
  }

  /** "hello" wins over the weather command. */
  lemma HelloBeforeWeather()
    ensures HandleMessage("weather hello") == Some(GREETING)
  {
    assert MatchesAt("weather hello", "hello", 8);
  }

  /** The weather command is a prefix test: a message that only ends with
      "weather" falls through to the fallback. */
  lemma WeatherOnlyAsPrefix()
    ensures HandleMessage("what is the weather") == Some(FALLBACK)
  {
    AbsentLetter("what is the weather", "hello", 'l');
    assert !MatchesAt("what is the weather", COMMAND, 0) by {
      assert LowerChar("what is the weather"[1]) != COMMAND[1];
    }
  }

  /** A message that begins with "weather" in any case, without "hello",
      selects the unfinished weather branch. */
  lemma WeatherCommand()
    ensures HandleMessage("Weather Paris") == None
  {
    var m := "Weather Paris";
    AbsentLetter(m, "hello", 'l');
    assert HasPrefix(m, COMMAND) by {
      forall j | 0 <= j < |COMMAND|
        ensures LowerChar(m[j]) == COMMAND[j]
      {
        assert m[j] == if j == 0 then 'W' else COMMAND[j];
      }
    }
  }

  /** The empty message gets the fallback. */
  lemma EmptyMessage()
    ensures HandleMessage("") == Some(FALLBACK)
  {
  }
}
