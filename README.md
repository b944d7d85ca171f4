# chatgpt-tools: the chat client's reflow and conversation loop, in Dafny

`index.js` of chatgpt-tools is a terminal chat client. The first line the
user types is a *persona*. It becomes the one system message the transcript
starts with. Each later line is appended as a user message, and the whole
transcript is sent to a chat-completion service. The message that comes
back is appended and shown, reflowed to the terminal width by
`formatOutput`. The session ends when the user types `exit`.

This project models two pieces of that file and proves properties of them.

- `reflow.dfy`, module `Reflow`: `formatOutput`. Its global regular-expression
  replace `(?![^\n]{1,N}$)([^\n]{1,N})\s` → `$1\n` is written out as the scan
  the JavaScript engine performs. Matches are taken from the original text.
  At each position the negative lookahead is checked first. Then the greedy
  group backtracks to the furthest whitespace within N characters that it
  can reach without crossing a line feed. That character becomes a line
  feed, and the scan resumes after it.
  The main results:
  - the output has the input's length and differs from it only where a
    whitespace character became a line feed;
  - every output line is at most N long, or holds no whitespace after its
    first character;
  - the texts the replace leaves alone are exactly those whose lines all fit
    N, so the transform is idempotent and its `length <= width` shortcut
    changes nothing;
  - a short last line is never broken;
  - every break comes from a longest match beginning at most N characters
    before it.
- `chat.dfy`, module `Chat`: the conversation loop. It is a class
  `Conversation` holding the `messages` transcript, with a `Round` method,
  a driver `Loop` and `RunSession`, the whole program. The methods are
  proved against the functions `AfterRound`, `Converse`, `Requests`,
  `Displays` and `Session`, and the lemmas say what those functions
  promise:
  - the transcript only grows;
  - it starts with the persona;
  - `exit` is never recorded;
  - every transcript sent is a prefix of the final transcript;
  - what the user is shown in round j answers the request of round j.
- `wrappers.dfy`, module `Wrappers`: `Option`.

The completion service is a parameter, `Service = seq<Message> -> Outcome`.
It yields `Success(msg)` when the response carries a message, `Empty` when
it carries none, and `Failure(error)` when the call throws. Every request
is longer than the one before it, so any sequence of outcomes over a session
is one such function. The lines the user types are a parameter
`inputs: seq<string>`. The reflow flag and the terminal width are the
parameters `fitOutputToScreen` and `maxLineLength`.

## Model

| member | source | states |
|---|---|---|
| Reflow.IsJsWhitespace | index.js:31 | `\s` matches every line terminator, the line feed among them, and no ASCII word character |
| Reflow.RunLength | index.js:31 | the run `[^\n]*` at p holds no line feed and ends at a line feed or at the end of the text |
| Reflow.LookaheadBlocks | index.js:31 | the lookahead `(?![^\n]{1,N}$)` blocks a match at p exactly when the run `[^\n]*` at p reaches the end of the text and is 1..N characters long |
| Reflow.FurthestBreak | index.js:31 | backtracking `{1,m}` then `\s` finds a whitespace character at p + k with 1 <= k <= m and none further out; with no result, there is no whitespace in reach |
| Reflow.MatchAt | index.js:31 | a successful attempt has a group of 1..N characters, and the whitespace it ends on lies inside the text |
| Reflow.MatchAtIsLongestMatch | index.js:31 | the match attempt at a position returns the longest match the expression has there, and fails only when the expression has no match there |
| Reflow.Matches | index.js:30-31 | there is one attempt per position of the text, and each is the attempt on the original text, not on the output built so far |
| Reflow.MatchesIsMatchTable | index.js:30-31 | the match attempts, taken at every position of the original text, record exactly the expression's longest matches and its failures |
| Reflow.ReplaceFrom | index.js:30-33 | the scan from p prints exactly as many characters as s[p..] holds: each match of k + 1 characters becomes its group and one line feed |
| Reflow.ReplaceFromBreaksOnlyWhitespace | index.js:30-33 | the scan from any position keeps the length and changes only whitespace characters, each into a line feed |
| Reflow.LinesFitFrom | index.js:30-33 | from a line start where every attempt so far failed, every line of what the scan prints fits the width |
| Reflow.ReflowReplace | index.js:30-33 | the global replace changes only whitespace, into line feeds, and every line of its result is at most the width long or has no whitespace after its first character |
| Reflow.FormatOutput | index.js:26-34 | returns the content unchanged when reflow is off or the content is no longer than the width; otherwise only whitespace changes, into line feeds, and every line fits the width |
| Reflow.FixpointsAreFittingTexts | index.js:30-33 | the replace leaves a text unchanged exactly when every line of it fits the width (both directions) |
| Reflow.TrivialMatchesLeaveTextAlone | index.js:30-33 | a scan whose every match ends on a line feed that is already there reproduces its text |
| Reflow.FittingTextHasOnlyTrivialMatches | index.js:31 | in a text whose lines all fit, every match ends on a line feed that is already there |
| Reflow.ReflowIdempotent | index.js:30-33 | reflowing a reflowed text changes nothing |
| Reflow.ShortTextUnchanged | index.js:29-33 | on a text no longer than the width, the replace returns the text unchanged, so the length shortcut gives the same result as the replace |
| Reflow.FormatOutputIdempotent | index.js:26-34 | formatting formatted output again changes nothing |
| Reflow.FormatOutputFixpoints | index.js:26-34 | with reflow on, `formatOutput` returns its input exactly when every line of it fits the width |
| Reflow.BreakOriginsFrom | index.js:30-33 | every character the scan from p changes ends a match recorded at a position q that the scan from p reaches, skipping the positions inside each match it takes |
| Reflow.BreakOrigins | index.js:30-33 | every inserted line feed replaces the whitespace s[b] of a longest match that began at a position q the scan reaches, with b - q <= width and no line feed in s[q..b]; the output keeps s[q..b] unchanged, and the output line the break ends starts at or before q |
| Reflow.ReflowSample | index.js:30-33 | the expression matches "a b c d e" at position 2 with its whitespace at 5, yet at width 4 the replace gives "a b\nc d\ne": the scan resumes after each inserted line feed, so it never tries position 2 |
| Reflow.FormatOutputKeepsShortLastLine | index.js:31 | when the text after the last line feed is 1..width characters long, it comes out of `formatOutput` unchanged |
| Chat.AfterRound | index.js:48-63 | a round appends the user's message to the transcript; on a success it then appends exactly the returned message; on an empty response or a failure the transcript stays as after the user's message |
| Chat.Shown | index.js:52-63 | a reply is shown exactly on a success, as the reflowed content of the returned message; the failure's message is shown exactly on a failure |
| Chat.FirstExit | index.js:47 | the number of rounds is the number of inputs before the first `exit`, or all of them |
| Chat.Converse | index.js:45-65 | the loop's final transcript extends the starting one by one or two messages per round |
| Chat.Requests | index.js:48-50 | each transcript sent extends the starting one and ends with that round's user message |
| Chat.Session | index.js:36-47 | there is no transcript exactly when the persona prompt is answered with `exit` (or there is no input); otherwise the transcript starts with the persona as a system message |
| Chat.SessionRequests | index.js:40-50 | nothing is sent when the persona prompt is answered with `exit`; otherwise one request per round |
| Chat.Displays | index.js:47-64 | the user is shown one display per round |
| Chat.SessionDisplays | index.js:36-64 | a session shows one display per request it sends |
| Chat.ConverseSplit | index.js:47-65 | running the loop over the inputs is running it over the first j of them, then over the rest |
| Chat.RequestsAreTranscriptsSoFar | index.js:47-50 | request j is the transcript after the first j rounds, followed by the user message of round j |
| Chat.RequestsArePrefixes | index.js:44-64 | the transcript is append-only: every transcript sent is a prefix of the final transcript |
| Chat.SessionSendsInputsBeforeExit | index.js:40-50 | every request starts with the persona message and ends with the user's input of its round; that input is never `exit`; every request is a prefix of the final transcript; nothing is sent when the persona prompt is `exit` |
| Chat.FirstRequest | index.js:44-50 | the first request is exactly the persona message followed by the first user message |
| Chat.DisplaysAnswerRequests | index.js:50-63 | what the user is shown in round j is the display of the service's outcome for request j |
| Chat.Conversation.constructor | index.js:44 | the transcript starts as exactly the persona as one system message |
| Chat.Conversation.Round | index.js:48-63 | the method changes the transcript one round: the new transcript is `AfterRound` of the old one, it keeps the persona first, and the method returns what `Shown` gives for the outcome of sending the transcript with the user's message |
| Chat.Loop | index.js:45-65 | runs rounds until `exit` or the end of the input; the final transcript is `Converse` of the starting one, the displays are `Displays`, and the persona stays first |
| Chat.RunSession | index.js:36-65 | the program returns no transcript when the persona prompt is answered with `exit`, otherwise the transcript `Session` describes, and the displays `SessionDisplays` describes |

## Left out

- The completion service and the network (index.js:3, 15, 50). They are the `Service` parameter.
- The response shape check `response?.data?.choices?.[0]?.message` (index.js:52). What the client library returns is not part of this model. The check becomes the choice between `Success` and `Empty`.
- Terminal I/O (index.js:1, 19-24, 36-38, 45, 55-63, 67). This covers `readline` prompting, the prompt strings, `console.log`, `console.error` and `readline.close()`. The lines typed are the `inputs` sequence. What is printed is the `Display` value. The error message printed by `console.log(error.message)` is the `diagnostic` of `SomethingWentWrong`.
- Environment reading, the API-key check, `exit(1)` and `exit(0)` (index.js:9-18, 40-42). The reflow flag is a boolean parameter, and the model name and prompt are not modelled.
- An undefined or zero `process.stdout.columns` (index.js:28). Without a terminal the width is undefined, and a width of 0 makes the regular expression invalid. The model requires a width of at least 1 whenever reflow is on.
- Chat.Loop, Chat.RunSession: the width is one value for the whole session. The source reads `process.stdout.columns` again on every call, so a terminal resized between rounds is not modelled.
- Chat.Session, Chat.RunSession, Chat.Loop: running out of inputs ends the session, also when there is no persona line at all (then there is no transcript). The program would instead wait for the next line.
- Reflow.FormatOutput: `content.length` and the regular expression count UTF-16 code units. The model counts Dafny characters (Unicode scalar values), so text outside the Basic Multilingual Plane can be broken as if it were narrower.
- Chat.Conversation.Round: the content of the returned message is a string. A message whose content is null or not a string (and the exception `formatOutput` would then throw inside the `try`) is not modelled.
- `async`/`await` (index.js:36, 45, 50, 55, 59, 63). The loop is sequential and is modelled synchronously.
