/** What a workshop message handler hands back. The handlers are annotated
    `-> str`, but a branch whose body is only `pass` falls off the end of the
    function, and Python then returns `None`; so a reply is a string or
    nothing. */
module Replies {

  datatype Option<T> = None | Some(value: T)

  /** The reply to any message that mentions "hello". */
  const GREETING: string := "Hello, welcome to NEAR AI!"

  /** The reply to a message that matches no keyword. */
  const FALLBACK: string := "I'm sorry, I didn't understand your message."

  /** The three outcomes a handler can produce. */
  predicate IsOutcome(r: Option<string>) {
    r == Some(GREETING) || r == None || r == Some(FALLBACK)
  }
}
