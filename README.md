# Workshop message handlers

The workshop starter scripts `columbia.py`, `carleton.py` and `emory.py` each
define `handle_message(message)`. Each one routes a chat message by keyword:

1. It lower-cases the message.
2. If the message contains "hello", it returns the greeting
   "Hello, welcome to NEAR AI!".
3. Otherwise, if the message matches the file's command, it takes an
   unfinished branch. The body is only `pass`, so Python returns `None`.
4. Otherwise it returns the fallback "I'm sorry, I didn't understand your message.".

The command tests are:

- `columbia.py`: the message **starts with** "weather".
- `carleton.py`: the message **contains** "quote".
- `emory.py`: the message **contains** "joke".

The model has six modules:

- `AsciiText` (`ascii_text.dfy`) defines ASCII lower-casing (`Lower`), the
  prefix test (`StartsWith`) and the substring test (`Contains`). These are
  the executable tests the handlers use. The module also gives a separate,
  position-based reading of "the message spells out this keyword, ignoring
  case" (`MatchesAt`, `HasWord`, `HasPrefix`). It proves that testing the
  lower-cased message agrees exactly with that reading.
- `Replies` (`replies.dfy`) defines the reply type, a string or nothing
  (`Option<string>`), and the two fixed strings.
- `Columbia`, `Carleton` and `Emory` each hold one file's handler. Each
  handler's contract fixes its reply for every message in terms of the
  case-blind reading. Lemmas beside it state that there are exactly three
  outcomes, that the handler ignores case, and the examples that show the
  priority of "hello" and how the command test behaves.
- `Agreement` (`agreement.dfy`) relates the three handlers. They agree on
  messages that mention "hello". They agree on messages that match none of
  the three commands. They disagree on "quote".

## Model

| member | source | states |
|---|---|---|
| AsciiText.LowerChar | universities-building-program/columbia.py:23 | the result is never an upper-case ASCII letter; an upper-case letter maps to the lower-case letter at the same alphabet offset; every other character is unchanged |
| AsciiText.Lower | universities-building-program/columbia.py:23 | `message.lower()` on ASCII text: the result has the same length, and each position holds the lower-cased character of the input |
| AsciiText.LowerIdempotent | universities-building-program/columbia.py:23 | lower-casing twice gives the same text as lower-casing once |
| AsciiText.LowerHasNoUpper | universities-building-program/carleton.py:22 | the lower-cased message holds no upper-case ASCII letter |
| AsciiText.StartsWith | universities-building-program/columbia.py:26 | `s.startswith(p)`: holds exactly when `p` is no longer than `s` and each character of `p` equals the character of `s` at the same position |
| AsciiText.Contains | universities-building-program/carleton.py:23-25 | `sub in s`: holds exactly when `sub` is the slice of `s` starting at some position; the empty word occurs in every text |
| AsciiText.StartsWithLowerIff | universities-building-program/columbia.py:26 | `message.lower().startswith(w)` holds exactly when the message begins with `w`, ignoring case |
| AsciiText.ContainsLowerIff | universities-building-program/carleton.py:22-25 | `w in message.lower()` holds exactly when `w` is spelt out at some position of the message, ignoring case |
| AsciiText.AbsentLetter | universities-building-program/emory.py:23-25 | if a letter of the keyword appears nowhere in the message in either case, the message does not contain the keyword |
| AsciiText.PrefixIsWord | universities-building-program/columbia.py:26 | a message that begins with a keyword also contains it |
| Columbia.HandleMessage | universities-building-program/columbia.py:22-38 | the greeting when the message contains "hello" in any case; otherwise no string when it begins with "weather" in any case; otherwise the fallback |
| Columbia.ExactlyOneOutcome | universities-building-program/columbia.py:22-38 | every reply is one of the greeting, nothing, or the fallback; each occurs exactly under its own condition (both directions) |
| Columbia.CaseInsensitive | universities-building-program/columbia.py:23 | a message and its lower-cased form get the same reply |
| Columbia.HelloBeforeWeather | universities-building-program/columbia.py:24-26 | "weather hello" gets the greeting: "hello" is tested before the weather command |
| Columbia.WeatherOnlyAsPrefix | universities-building-program/columbia.py:26-38 | "what is the weather" gets the fallback, because it does not begin with "weather" |
| Columbia.WeatherCommand | universities-building-program/columbia.py:26-36 | "Weather Paris" takes the unfinished weather branch and gets no string |
| Columbia.EmptyMessage | universities-building-program/columbia.py:37-38 | the empty message gets the fallback |
| Carleton.HandleMessage | universities-building-program/carleton.py:21-34 | the greeting when the message contains "hello" in any case; otherwise no string when it contains "quote" anywhere in any case; otherwise the fallback |
| Carleton.ExactlyOneOutcome | universities-building-program/carleton.py:21-34 | every reply is one of the greeting, nothing, or the fallback; each occurs exactly under its own condition (both directions) |
| Carleton.CaseInsensitive | universities-building-program/carleton.py:22 | a message and its lower-cased form get the same reply |
| Carleton.HelloBeforeQuote | universities-building-program/carleton.py:23-25 | "quote hello" gets the greeting: "hello" is tested before the quote command |
| Carleton.QuoteInCapitals | universities-building-program/carleton.py:22-32 | "Give me a QUOTE" takes the unfinished quote branch and gets no string |
| Carleton.QuoteInsideWord | universities-building-program/carleton.py:25-32 | "unquote" takes the unfinished quote branch: the test is containment, not a whole word or a prefix |
| Carleton.NoKeyword | universities-building-program/carleton.py:33-34 | "good morning" gets the fallback |
| Carleton.EmptyMessage | universities-building-program/carleton.py:33-34 | the empty message gets the fallback |
| Emory.HandleMessage | universities-building-program/emory.py:21-34 | the greeting when the message contains "hello" in any case; otherwise no string when it contains "joke" anywhere in any case; otherwise the fallback |
| Emory.ExactlyOneOutcome | universities-building-program/emory.py:21-34 | every reply is one of the greeting, nothing, or the fallback; each occurs exactly under its own condition (both directions) |
| Emory.CaseInsensitive | universities-building-program/emory.py:22 | a message and its lower-cased form get the same reply |
| Emory.HelloBeforeJoke | universities-building-program/emory.py:23-25 | "joke hello" gets the greeting: "hello" is tested before the joke command |
| Emory.JokeInCapitals | universities-building-program/emory.py:22-32 | "JOKES" takes the unfinished joke branch and gets no string |
| Emory.JokeAtEnd | universities-building-program/emory.py:25-32 | "tell me a joke" takes the unfinished joke branch |
| Emory.NoKeyword | universities-building-program/emory.py:33-34 | "thanks" gets the fallback |
| Emory.EmptyMessage | universities-building-program/emory.py:33-34 | the empty message gets the fallback |
| Emory.KelvinSignNotLowered | universities-building-program/emory.py:22-25 | with ASCII-only lower-casing, "JO" + U+212A KELVIN SIGN + "E" gets the fallback; this is where the model departs from Python |
| Agreement.AgreeOnHello | universities-building-program/emory.py:23-24 | all three handlers reply with the greeting to any message containing "hello" (the same test stands at columbia.py:24-25 and carleton.py:23-24) |
| Agreement.AgreeWithoutCommand | universities-building-program/emory.py:23-34 | on a message matching none of the three command tests, all three handlers give the same reply: the greeting if it contains "hello", otherwise the fallback (the branches compared are also columbia.py:24-38 and carleton.py:23-34) |
| Agreement.DisagreeOnQuote | universities-building-program/carleton.py:25 | "quote" takes Carleton's unfinished branch but gets the fallback from Columbia and Emory |
| Agreement.PrefixNarrowerThanContains | universities-building-program/columbia.py:26 | "what is the weather" contains "weather" without beginning with it, so a prefix test is narrower than containment |

## Left out

- `Lower`: models ASCII lower-casing only. Python's `str.lower()` applies the full Unicode case mapping. The only non-ASCII character that Python lower-cases into a letter of one of the keywords is U+212A KELVIN SIGN. It becomes 'k', the letter in "joke". So "JO\u212AE" takes Emory's joke branch in Python, but gets the fallback in the model (`Emory.KelvinSignNotLowered`). U+0130 lower-cases to "i" plus a combining dot, but no keyword contains 'i'. No other handler and no other keyword is affected.
- The unfinished branches return no string (`None`). The network calls described in the files' comments are not written in the code and are not modelled. These are the weather, quote and joke APIs, with their city parsing, URL building, status checks and JSON field extraction.
- The comments at universities-building-program/carleton.py:26-31 describe a quote fetch with a status check and extraction of "content" and "author". The code there is only `pass`, and the model follows the code.
- `import requests` is an import with no effect on the handlers. It is not modelled.
- The commented-out `input()`/`print` test blocks at the end of each file are console I/O and are not modelled.
- The quote fetcher backed by JSON and the host agent runtime (message history, replies, requests for input) are not part of this model. They are not in these three files, and they are network and runtime calls.
