/** The Carleton challenge handler: a greeting for "hello", an unfinished
    branch for messages that mention "quote" anywhere, a fallback otherwise. */
module Carleton {
  import opened AsciiText
  import opened Replies

  const COMMAND: string := "quote"

  /** `handle_message`: lower-case the message, then test for "hello"
      anywhere, then for "quote" anywhere. The quote branch is the
      workshop's unfinished `pass`, so it returns no string. */
  function HandleMessage(message: string): (r: Option<string>)
    ensures HasWord(message, "hello") ==> r == Some(GREETING)
    ensures !HasWord(message, "hello") && HasWord(message, COMMAND) ==> r == None
    ensures !HasWord(message, "hello") && !HasWord(message, COMMAND) ==> r == Some(FALLBACK)
  {
    var lowered := Lower(message);
    ContainsLowerIff(message, "hello");
    ContainsLowerIff(message, COMMAND);
    if Contains(lowered, "hello") then
      Some(GREETING)
    else if Contains(lowered, COMMAND) then
      None
    else
      Some(FALLBACK)
  }

  /** Every message gets exactly one of the three outcomes, each under its own
      condition. */
  lemma ExactlyOneOutcome(message: string)
    ensures IsOutcome(HandleMessage(message))
    ensures HandleMessage(message) == Some(GREETING) <==> HasWord(message, "hello")
    ensures HandleMessage(message) == None <==> !HasWord(message, "hello") && HasWord(message, COMMAND)
    ensures HandleMessage(message) == Some(FALLBACK) <==> !HasWord(message, "hello") && !HasWord(message, COMMAND)
  {
  }

  /** Matching ignores case: a message and its lower-cased form get the same reply. */
  lemma CaseInsensitive(message: string)
    ensures HandleMessage(Lower(message)) == HandleMessage(message)
  {
    LowerIdempotent(message);
  }

  /** "hello" wins over the quote command. */
  lemma HelloBeforeQuote()
    ensures HandleMessage("quote hello") == Some(GREETING)
  {
    assert MatchesAt("quote hello", "hello", 6);
  }

  /** "quote" selects the unfinished branch in any case, not only at the start. */
  lemma QuoteInCapitals()
    ensures HandleMessage("Give me a QUOTE") == None
  {
    var m := "Give me a QUOTE";
    AbsentLetter(m, "hello", 'l');
    assert HasWord(m, COMMAND) by { assert MatchesAt(m, COMMAND, 10); }
  }

  /** "quote" inside a longer word also selects the unfinished branch. */
  lemma QuoteInsideWord()
    ensures HandleMessage("unquote") == None
  {
    var m := "unquote";
    AbsentLetter(m, "hello", 'l');
    assert HasWord(m, COMMAND) by { assert MatchesAt(m, COMMAND, 2); }
  }

  /** A message with neither keyword gets the fallback. */
  lemma NoKeyword()
    ensures HandleMessage("good morning") == Some(FALLBACK)
  {
    var m := "good morning";
    AbsentLetter(m, "hello", 'l');
    AbsentLetter(m, COMMAND, 'q');
  }

  /** The empty message gets the fallback. */
  lemma EmptyMessage()
    ensures HandleMessage("") == Some(FALLBACK)
  {
  }
}
