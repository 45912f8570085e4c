# Chat client core, modelled in Dafny

A model of the logic in the browser chat client `app.js`. The client sends
the user's message, together with the conversation so far, to a Gemini proxy
and shows the reply. Three pieces of it are modelled and proved here.

- **HTML escaping** (`HtmlEscape`, `escape.dfy`). `escapeHtml` is one
  left-to-right substitution. It maps `& < > " '` to `&amp; &lt; &gt; &quot; &#39;`
  and copies every other character. The model proves that no `<`, `>`, `"`
  or `'` survives, and that every `&` in the output begins one of the five
  entities. It proves that plain text passes through unchanged. It also
  proves that a left-to-right entity decoder (`Unescape`) recovers the input
  exactly, so two different messages never escape to the same markup.
- **Request building** (`RequestBuilder`, `request.dfy`). The input is
  trimmed, and an empty result stops the submission. The model is checked
  against `allowedGeminiModels`, with `"gemini-2.5-flash"` as the fallback.
  An empty system prompt is replaced by the default one. The payload's
  messages are the history with the new user message appended. `trim` is
  parameterised by the predicate that says which characters are whitespace.
- **Session state** (`ChatSession`, `session.dfy`). The class `Session` holds
  `chatHistory`, the busy state that `toggleBusy` shows, and the in-flight
  `controller`. The submit handler awaits up to three times: `fetch`
  (app.js:69), then `res.text()` (app.js:77) or `res.json()` (app.js:83). No
  session state changes between the first await and the last, so the handler
  is split there:
  - `Begin` is everything before the `fetch`.
  - `Complete` is everything after the last await, to the end of the `finally` block.
  - `Submit` runs both as one transition.

  The network's answer is an `Outcome` input with four cases: a reply, an
  error status with its body, an abort, or any other thrown error. The
  invariant `Valid` says two things. The history is a run of complete
  user/assistant exchanges. The session is busy exactly while a controller
  exists. `ReplayAppendsExchanges` proves what happens over any sequence of
  submissions: the history grows by exactly the answered exchanges, in order.

`app.js` has no decoder for server-sent events: it reads each response once
as JSON (app.js:83-84), so there is no decoder in the model. The user message
enters the history only together with a reply (app.js:85-86).

## Model

| member | source | states |
|---|---|---|
| `HtmlEscape.EscapeChar` | app.js:110 | each markup character becomes an entity that starts with `&`, is at least four characters long and has no other markup character; any other character maps to itself, and only those do |
| `HtmlEscape.EscapeHtml` | app.js:109-111 | the output has no `<`, `>`, `"` or `'`; it is at least as long as the input; a string with none of `& < > " '` is returned unchanged |
| `HtmlEscape.EscapeConcat` | app.js:110 | escaping a concatenation is the concatenation of the escapings: the replacement works character by character, in order |
| `HtmlEscape.PlainCharPassesThrough` | app.js:110 | a character other than `& < > " '` appears unchanged in the output, between the escapings of what comes before and after it |
| `HtmlEscape.EscapeLengthExact` | app.js:110 | the output is exactly as long as the input if and only if the input has none of the five markup characters |
| `HtmlEscape.AmpersandsBeginEntities` | app.js:110 | every `&` in the output begins one of `&amp; &lt; &gt; &quot; &#39;` |
| `HtmlEscape.UnescapeEscapeChar` | app.js:110 | decoding one escaped character followed by any text gives back that character, then the decoding of the text |
| `HtmlEscape.UnescapeEscape` | app.js:109-111 | decoding the five entities left to right recovers the original input exactly |
| `HtmlEscape.EscapeInjective` | app.js:109-111 | two strings escape to the same output if and only if they are equal |
| `RequestBuilder.StartOfText` | app.js:41 | the position where `trim` starts the text: every character before it is whitespace, and the character there is not |
| `RequestBuilder.EndOfText` | app.js:41 | the position where `trim` ends the text: every character from there to the end is whitespace, and the character just before it is not |
| `RequestBuilder.Trim` | app.js:41-42 | the result is the input from its first non-whitespace character on, cut so that only whitespace follows it; it is empty if and only if the input is all whitespace; a non-empty result neither starts nor ends with whitespace |
| `RequestBuilder.TrimIdempotent` | app.js:41 | trimming an already trimmed text changes nothing |
| `RequestBuilder.ChooseModel` | app.js:51-54 | the model sent is always in `allowedGeminiModels`; it is the selected model when the list has it, and `"gemini-2.5-flash"` otherwise |
| `RequestBuilder.SystemPrompt` | app.js:61 | the system prompt sent is never empty; a non-empty prompt is kept as typed, and an empty one becomes the default prompt |
| `RequestBuilder.BuildPayload` | app.js:41-63 | no payload exactly when the input is all whitespace; otherwise the provider is `"gemini"`, the temperature is passed through, the model and system prompt are the checked selections, and the messages are the whole history followed by one user message holding the non-empty trimmed text |
| `ChatSession.PairedExtend` | app.js:85-86 | pushing the user message and then the reply keeps the history a run of complete user/assistant exchanges |
| `ChatSession.HistoryAfterIsAtomic` | app.js:76-92 | a submission leaves the history as it was if and only if it got no reply; on a reply the history gains exactly the user message and then the reply; a paired history stays paired |
| `ChatSession.SlotAfterCases` | app.js:76-89 | only an abort leaves the assistant slot untouched; an error status shows `Error: ` followed by the response body |
| `ChatSession.ReplayAppendsExchanges` | app.js:68-93 | after any sequence of submissions the history is the old history followed by exactly the answered exchanges, in order; those exchanges are always paired |
| `ChatSession.Session.constructor` | app.js:14-15 | the session starts with an empty history, no controller and not busy |
| `ChatSession.Session.Clear` | app.js:34-37 | the history becomes empty whatever it held; the busy state and the controller do not change |
| `ChatSession.Session.Stop` | app.js:96 | with a controller, it is aborted; without one, nothing changes; the history and busy state never change |
| `ChatSession.Session.Begin` | app.js:39-66 | for an all-whitespace input nothing changes and no payload is built; otherwise the payload is the one `BuildPayload` gives for the unchanged history, a fresh controller exists and the session is busy |
| `ChatSession.Session.Complete` | app.js:68-93 | on a reply the history gains the user message and the reply, in that order; on an error status, an abort or another error it is unchanged; in every case the session ends not busy and without a controller; the slot text is the one for the outcome |
| `ChatSession.Session.Submit` | app.js:39-94 | an all-whitespace input changes nothing, sends nothing and returns no slot text; any other input sends the payload built from the old history, ends not busy and without a controller, and extends the history by the exchange only when the request was answered |

## Left out

- Rendering: `pushMessage`, `innerHTML`, scrolling and the message nodes (app.js:98-105) are not modelled. The model does not record the user and assistant nodes that the submit handler adds to the page (app.js:44-48), nor the clearing of the page by the clear button (app.js:36). The assistant slot appears only as the text `Complete` returns for it.
- The buttons' `disabled` attributes (app.js:107) are modelled as the one flag `busy`.
- The temperature slider's display and `parseFloat` (app.js:19-21, 60) are not modelled because they are floating point. The temperature is an opaque value passed through unchanged.
- The preset buttons and the Enter-key handler (app.js:23-32) are UI only.
- `fetch`, `AbortController`, `res.text()` and `res.json()` (app.js:65-84) are network I/O. Their result is the `Outcome` input. The model does not decide which outcome follows an abort. It only records, in the controller, that `abort()` was called.
- A reply whose JSON has no `text` field is not modelled. In that case the client would push an assistant message whose content is `undefined`. The model's `Replied` always carries a string.
- `async` interleaving: the model runs one submission at a time, `Begin` followed by `Complete`. It does not model a second submission starting while one is in flight. The Enter key calls `requestSubmit()` even while the send button is disabled, so this can happen in the browser. Then the first request's `finally` block would clear the controller of the second.
- Which characters JavaScript's `trim` treats as whitespace: `Trim` takes that as the predicate `isSpace`.
- Strings are sequences of Dafny characters, not JavaScript's UTF-16 code units.
