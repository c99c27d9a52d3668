/** How the three workshop handlers relate: they share the greeting and the
    fallback and differ only in their command test. */
module Agreement {
  import opened AsciiText
  import opened Replies
  import Columbia
  import Carleton
  import Emory

  /** A message that mentions "hello" gets the greeting from all three handlers. */
  lemma AgreeOnHello(message: string)
    requires HasWord(message, "hello")
    ensures Columbia.HandleMessage(message) == Some(GREETING)
    ensures Carleton.HandleMessage(message) == Some(GREETING)
    ensures Emory.HandleMessage(message) == Some(GREETING)
  {
  }

  /** A message that matches none of the three command tests gets the same
      reply from all three handlers: the greeting if it mentions "hello",
      the fallback otherwise. */
  lemma AgreeWithoutCommand(message: string)
    requires !HasPrefix(message, Columbia.COMMAND)
    requires !HasWord(message, Carleton.COMMAND)
    requires !HasWord(message, Emory.COMMAND)
    ensures Columbia.HandleMessage(message) == Carleton.HandleMessage(message)
    ensures Carleton.HandleMessage(message) == Emory.HandleMessage(message)
    ensures Columbia.HandleMessage(message) == if HasWord(message, "hello") then Some(GREETING) else Some(FALLBACK)
  {
  }

  /** The handlers can disagree: "quote" reaches Carleton's unfinished branch
      but the fallback of the other two. */
  lemma DisagreeOnQuote()
    ensures Carleton.HandleMessage("quote") == None
    ensures Columbia.HandleMessage("quote") == Some(FALLBACK)
    ensures Emory.HandleMessage("quote") == Some(FALLBACK)
  {
    var m := "quote";
    AbsentLetter(m, "hello", 'l');
    AbsentLetter(m, Emory.COMMAND, 'j');
    assert HasWord(m, Carleton.COMMAND) by { assert MatchesAt(m, Carleton.COMMAND, 0); }
    assert !HasPrefix(m, Columbia.COMMAND) by { assert LowerChar(m[0]) != Columbia.COMMAND[0]; }
  }

  /** Columbia's command is narrower than a substring test: "what is the
      weather" mentions "weather" without beginning with it. Every message
      that begins with a keyword mentions it (`AsciiText.PrefixIsWord`). */
  lemma PrefixNarrowerThanContains()
    ensures HasWord("what is the weather", Columbia.COMMAND)
    ensures !HasPrefix("what is the weather", Columbia.COMMAND)
  {
    var m := "what is the weather";
    assert MatchesAt(m, Columbia.COMMAND, 12);
    assert LowerChar(m[1]) != Columbia.COMMAND[1];
  }
}
