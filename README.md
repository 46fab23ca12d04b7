# Chat client session and history pager, in Dafny

This project models the two stateful components of a React chat client for a
recommendation backend.

`ChatInterface` keeps a session:
- the transcript of user and assistant entries;
- the text in the input box;
- the selected model (`deepseek`, `gemini` or `ollama`);
- whether a reply is streaming, and whether an abort controller is held.

It does the following:
- It hydrates the transcript from a stored conversation.
- It maps the stored model label onto a model id.
- It guards and starts a send: it appends the user entry and an empty assistant placeholder.
- It consumes the reply as a line protocol:
  - chunks are buffered and split on `'\n'`, and the unterminated tail waits for the next chunk;
  - only `data:` lines count;
  - a fragment that trims to `[DONE]` ends the stream;
  - every other fragment is un-escaped and appended to the last entry.
- It handles stop, clear and connection errors.

`ChatHistory` pages through stored conversations:
- a cursor with clamped previous and next steps;
- buttons that disable at the bounds;
- a load that requests ten conversations per page;
- a one-line preview of each conversation.

Layout:
- `js_text.dfy` (module `JsText`): the JavaScript string built-ins the client relies on. These are `trim` (ECMAScript white space and line terminators), `startsWith`, `includes` and `toLowerCase`.
- `backend.dfy` (module `Backend`): the records received from the REST API.
- `chat_stream.dfy` (module `ChatStream`): the line protocol.
  - `SplitBuffer` is the split and `pop`.
  - `ParseLine` returns Skip, Done or Token.
  - `Unescape` is the backslash-n substitution.
  - `Fragments` and `Terminated` describe what a sequence of lines appends and whether it ends the stream.
  - It also holds the lemmas that make the consumer independent of chunk boundaries.
- `chat_interface.dfy` (module `ChatInterface`): transcript hydration, model normalisation, and the `ChatSession` class. Each React state update is one assignment to a field of the class.
- `chat_history.dfy` (module `ChatHistory`): the pager functions and the `HistoryPager` class.

## Model

| member | source | states |
|---|---|---|
| JsText.Trim | recommender-pe-rag-react/src/components/ChatInterface.jsx:73 | definition of `String.prototype.trim` as its two halves; what it removes and keeps is in TrimStartSpec, TrimEndSpec and TrimDecompose |
| JsText.TrimStartSpec | recommender-pe-rag-react/src/components/ChatInterface.jsx:73 | `trim`'s left half keeps the suffix that starts at the first non-white-space character; everything it drops is white space |
| JsText.TrimEndSpec | recommender-pe-rag-react/src/components/ChatInterface.jsx:73 | `trim`'s right half keeps the prefix that ends at the last non-white-space character; everything it drops is white space |
| JsText.TrimEmptyIff | recommender-pe-rag-react/src/components/ChatInterface.jsx:132 | a line trims to "" exactly when it is all white space |
| JsText.TrimPadded | recommender-pe-rag-react/src/components/ChatInterface.jsx:141 | a core that neither starts nor ends with white space is recovered by `trim` from any white-space padding |
| JsText.TrimDecompose | recommender-pe-rag-react/src/components/ChatInterface.jsx:141 | every string is its trim with white space on both sides |
| JsText.StartsWith | recommender-pe-rag-react/src/components/ChatInterface.jsx:135 | definition of `startsWith`: the prefix is the string's first characters; used by ParseLine |
| JsText.Includes | recommender-pe-rag-react/src/components/ChatInterface.jsx:40-41 | `includes` is true exactly when the pattern occurs at some index |
| JsText.IncludesMiddle | recommender-pe-rag-react/src/components/ChatInterface.jsx:40-41 | a pattern placed anywhere in a string is found |
| JsText.ToLower | recommender-pe-rag-react/src/components/ChatInterface.jsx:39 | definition of `toLowerCase`, one character at a time over the characters that can affect an ASCII match; its properties are in ToLowerAppend, ToLowerIdempotent and ToLowerKeepsLower |
| JsText.ToLowerAppend | recommender-pe-rag-react/src/components/ChatInterface.jsx:39 | the modelled `ToLower`, a character-by-character map, distributes over concatenation (JavaScript's context-dependent final-sigma rule is not modelled) |
| JsText.ToLowerIdempotent | recommender-pe-rag-react/src/components/ChatInterface.jsx:39 | the modelled `ToLower` applied twice equals one application |
| JsText.ToLowerKeepsLower | recommender-pe-rag-react/src/components/ChatInterface.jsx:39 | lower-case ASCII text is its own lower case |
| ChatStream.SplitBuffer | recommender-pe-rag-react/src/components/ChatInterface.jsx:127-129 | definition of `buffer.split('\n')` then `lines.pop() || ""`: the complete lines and the unterminated tail; its properties are in SplitBufferSpec, SplitBufferJoin, SplitBufferRest and SplitBufferAppend |
| ChatStream.SplitBufferSpec | recommender-pe-rag-react/src/components/ChatInterface.jsx:127-129 | the lines, each followed by '\n', and then the kept tail make up the buffer exactly; no line and not the tail contains '\n' |
| ChatStream.SplitBufferJoin | recommender-pe-rag-react/src/components/ChatInterface.jsx:127-129 | the split is unique: newline-free lines joined with '\n' plus a newline-free tail split back into exactly those lines and that tail, so an unterminated tail is never emitted as a line |
| ChatStream.SplitBufferRest | recommender-pe-rag-react/src/components/ChatInterface.jsx:129 | the kept tail contains no complete line |
| ChatStream.SplitBufferAppend | recommender-pe-rag-react/src/components/ChatInterface.jsx:124-129 | splitting `x`, then its tail followed by `y`, gives the same lines and tail as splitting `x + y` at once |
| ChatStream.ParseLine | recommender-pe-rag-react/src/components/ChatInterface.jsx:132-144 | a line is skipped exactly when it does not start with "data:"; a token is the line after "data:", untrimmed |
| ChatStream.ParseLineDoneExact | recommender-pe-rag-react/src/components/ChatInterface.jsx:141-144 | a line ends the stream iff it is "data:" followed by "[DONE]" with only white space around it; a fragment that merely contains "[DONE]" is a token |
| ChatStream.Unescape | recommender-pe-rag-react/src/components/ChatInterface.jsx:155 | the first character of the result is a line break where the text starts with backslash-n, and the text's own first character otherwise |
| ChatStream.UnescapeLeavesNoEscape | recommender-pe-rag-react/src/components/ChatInterface.jsx:155 | after the left-to-right substitution no backslash-n remains |
| ChatStream.UnescapeIdentity | recommender-pe-rag-react/src/components/ChatInterface.jsx:155 | a fragment without backslash-n is appended unchanged |
| ChatStream.UnescapeFixedIff | recommender-pe-rag-react/src/components/ChatInterface.jsx:155 | the substitution changes a fragment exactly when it holds a backslash-n |
| ChatStream.Escape | recommender-pe-rag-react/src/components/ChatInterface.jsx:155 | a server-side escape of a fragment's line breaks yields newline-free text no shorter than the input |
| ChatStream.UnescapeEscape | recommender-pe-rag-react/src/components/ChatInterface.jsx:155 | un-escaping inverts escaping for every text without a literal backslash-n |
| ChatStream.TokenText | recommender-pe-rag-react/src/components/ChatInterface.jsx:147-155 | every appended token text is non-empty: an empty token becomes a line break |
| ChatStream.Fragments | recommender-pe-rag-react/src/components/ChatInterface.jsx:131-161 | definition of the texts the for-of loop appends, one per token line, up to the end line; its properties are in FragmentsSpec, FragmentsAppend, FragmentsStep and FragmentsStopped |
| ChatStream.Terminated | recommender-pe-rag-react/src/components/ChatInterface.jsx:131-144 | definition of "some complete line ends the stream"; TerminatedSpec ties it to ParseLine |
| ChatStream.EmptyTokenIsLineBreak | recommender-pe-rag-react/src/components/ChatInterface.jsx:147 | a bare `data:` line carries the empty token, and that token appends one line break rather than nothing |
| ChatStream.FragmentsSpec | recommender-pe-rag-react/src/components/ChatInterface.jsx:131-162 | lines yield at most one text each, and none of them is empty |
| ChatStream.TerminatedSpec | recommender-pe-rag-react/src/components/ChatInterface.jsx:141-144 | a sequence of lines ends the stream exactly when one of its lines is the end line |
| ChatStream.FragmentsAppend | recommender-pe-rag-react/src/components/ChatInterface.jsx:131-144 | handling `a` then `b` is handling `a + b`; once `a` has ended the stream nothing of `b` is appended |
| ChatStream.FragmentsStep | recommender-pe-rag-react/src/components/ChatInterface.jsx:131-162 | one more line after lines that did not end the stream ends it iff it is the end line, and appends exactly that line's text |
| ChatStream.FragmentsStopped | recommender-pe-rag-react/src/components/ChatInterface.jsx:141-144 | lines after the end line are never handled |
| ChatStream.ChunkStep | recommender-pe-rag-react/src/components/ChatInterface.jsx:118-131 | reading one more chunk with only the previous tail buffered appends what reading all the text at once appends after what was already read |
| ChatStream.StreamStopped | recommender-pe-rag-react/src/components/ChatInterface.jsx:141-144 | once the text read so far has ended the stream, text read later changes nothing |
| ChatStream.DataLines | recommender-pe-rag-react/src/components/ChatInterface.jsx:135-138 | a server writes one line per fragment |
| ChatStream.ParseDataLine | recommender-pe-rag-react/src/components/ChatInterface.jsx:132-155 | the escaped data line of a conveyable fragment parses as a token whose text is the fragment |
| ChatStream.DataLinesAreLines | recommender-pe-rag-react/src/components/ChatInterface.jsx:127-129 | data lines contain no line break |
| ChatStream.AllConveyableEach | recommender-pe-rag-react/src/components/ChatInterface.jsx:132-155 | fragments that are each conveyable are conveyable as a sequence |
| ChatStream.FragmentsOfDataLines | recommender-pe-rag-react/src/components/ChatInterface.jsx:131-162 | the data lines of conveyable fragments yield exactly those fragments and do not end the stream |
| ChatStream.StreamRoundTrip | recommender-pe-rag-react/src/components/ChatInterface.jsx:116-162 | a server that writes one escaped data line per fragment and then an end line delivers exactly its fragments, in order, whatever it writes afterwards |
| ChatInterface.NormalizeModel | recommender-pe-rag-react/src/components/ChatInterface.jsx:39-42 | definition of the label-to-model mapping: lower-case, deepseek first, then gemini, else ollama; its properties are in the NormalizeModel* and NormalizeNamed* lemmas |
| ChatInterface.NormalizeModelIgnoresCase | recommender-pe-rag-react/src/components/ChatInterface.jsx:39-42 | the letter case of the stored label never matters |
| ChatInterface.NormalizeModelDeepseek | recommender-pe-rag-react/src/components/ChatInterface.jsx:39-42 | a label mentioning DeepSeek in any letter case selects deepseek, whatever else it mentions |
| ChatInterface.NormalizeModelGemini | recommender-pe-rag-react/src/components/ChatInterface.jsx:39-42 | a label mentioning Gemini in any letter case, and not DeepSeek, selects gemini |
| ChatInterface.NormalizeModelFallback | recommender-pe-rag-react/src/components/ChatInterface.jsx:39-42 | a label mentioning neither selects ollama, not the initial gemini |
| ChatInterface.NormalizeModelName | recommender-pe-rag-react/src/components/ChatInterface.jsx:39-43 | each model id's own name normalises back to that id |
| ChatInterface.NormalizeNamedModel | recommender-pe-rag-react/src/components/ChatInterface.jsx:39-42 | "deepseek" and "gemini" normalise to their own ids |
| ChatInterface.NormalizeNamedOllama | recommender-pe-rag-react/src/components/ChatInterface.jsx:39-42 | "ollama" normalises to ollama |
| ChatInterface.AppendToLast | recommender-pe-rag-react/src/components/ChatInterface.jsx:150-161 | definition of the token update: the last entry's content grows by the text, an empty transcript is kept; its properties are in AppendToLastSpec and AppendToLastCompose |
| ChatInterface.AppendToLastSpec | recommender-pe-rag-react/src/components/ChatInterface.jsx:150-161 | a token changes only the last entry's content, at its end; length, roles and earlier entries are kept, and an empty transcript is left alone |
| ChatInterface.AppendToLastCompose | recommender-pe-rag-react/src/components/ChatInterface.jsx:150-161 | appending `a` then `b` is appending `a + b`; appending "" changes nothing |
| ChatInterface.MarkErrorAsWritten | recommender-pe-rag-react/src/components/ChatInterface.jsx:169-173 | the error update as written fails exactly on an empty transcript; otherwise it adds the marker to the last entry |
| ChatInterface.MarkError | recommender-pe-rag-react/src/components/ChatInterface.jsx:169-173 | the guarded error update agrees with the written one wherever that one succeeds, and leaves an empty transcript empty |
| ChatInterface.Entries | recommender-pe-rag-react/src/components/ChatInterface.jsx:22-34 | definition of what one stored question becomes: its user entry, then its answer when truthy; EntriesContents states both roles |
| ChatInterface.Transcript | recommender-pe-rag-react/src/components/ChatInterface.jsx:20-35 | definition of the hydrated transcript, question by question; its properties are in TranscriptQuestions, TranscriptAnswers, TranscriptAlternates, TranscriptOpensWithFirstQuestion and TranscriptIgnoresExtraAnswers, and FormatConversation computes it |
| ChatInterface.TranscriptQuestions | recommender-pe-rag-react/src/components/ChatInterface.jsx:20-35 | hydration keeps every stored question, in order, as a user entry |
| ChatInterface.EntriesContents | recommender-pe-rag-react/src/components/ChatInterface.jsx:22-35 | one stored question contributes exactly one user entry, whether its answer is shown or not, and an assistant entry holding its answer exactly when that answer is truthy |
| ChatInterface.TranscriptAnswers | recommender-pe-rag-react/src/components/ChatInterface.jsx:20-35 | the assistant entries of a hydrated transcript are exactly the truthy stored answers of the stored questions, in order: falsy or missing answers are dropped |
| ChatInterface.TranscriptAlternates | recommender-pe-rag-react/src/components/ChatInterface.jsx:22-35 | every assistant entry directly follows a user entry; none comes first |
| ChatInterface.TranscriptOpensWithFirstQuestion | recommender-pe-rag-react/src/components/ChatInterface.jsx:22-27 | a hydrated transcript opens with the first stored question |
| ChatInterface.TranscriptIgnoresExtraAnswers | recommender-pe-rag-react/src/components/ChatInterface.jsx:22-35 | answers stored past the last question are ignored |
| ChatInterface.TranscriptExample | recommender-pe-rag-react/src/components/ChatInterface.jsx:22-35 | ["A","B"] with ["R1"] hydrates to user A, assistant R1, user B; an empty answer gives no assistant entry |
| ChatInterface.FormatConversation | recommender-pe-rag-react/src/components/ChatInterface.jsx:20-35 | the `forEach` loop builds exactly the transcript the stored pairs define |
| ChatInterface.LineAppends | recommender-pe-rag-react/src/components/ChatInterface.jsx:131-162 | handling one more line appends that line's text to the transcript, and the end line appends nothing |
| ChatInterface.ChunkAppends | recommender-pe-rag-react/src/components/ChatInterface.jsx:118-131 | one more chunk appends to the transcript what reading all the text at once appends after the earlier text |
| ChatInterface.ConcatPrefix | recommender-pe-rag-react/src/components/ChatInterface.jsx:124 | the text read so far grows chunk by chunk |
| ChatInterface.UnreadChunks | recommender-pe-rag-react/src/components/ChatInterface.jsx:141-144 | chunks left unread after the end line change nothing |
| ChatInterface.ChatSession.constructor | recommender-pe-rag-react/src/components/ChatInterface.jsx:10-14 | empty transcript and input, gemini selected, idle, no controller |
| ChatInterface.ChatSession.SetInput | recommender-pe-rag-react/src/components/ChatInterface.jsx:233 | the input box holds the typed text |
| ChatInterface.ChatSession.SelectModel | recommender-pe-rag-react/src/components/ChatInterface.jsx:191 | the selector sets the model |
| ChatInterface.ChatSession.Hydrate | recommender-pe-rag-react/src/components/ChatInterface.jsx:18-46 | a picked conversation replaces the transcript, and the result is empty when either array is missing; a truthy label selects its normalised model, otherwise the model is kept; no pick changes nothing |
| ChatInterface.ChatSession.Stop | recommender-pe-rag-react/src/components/ChatInterface.jsx:58-64 | from any state, ends idle with no controller |
| ChatInterface.ChatSession.Clear | recommender-pe-rag-react/src/components/ChatInterface.jsx:66-70 | stops, and empties the transcript and the input |
| ChatInterface.ChatSession.SendMessage | recommender-pe-rag-react/src/components/ChatInterface.jsx:72-100 | no request and no change iff the trimmed input is empty or a stream is active; otherwise exactly user(trimmed input) and assistant("") are appended, the input is cleared, the session streams with a controller, and the selected model is asked |
| ChatInterface.ChatSession.HandleLine | recommender-pe-rag-react/src/components/ChatInterface.jsx:131-163 | the end line stops the stream and appends nothing; any other line appends its text, possibly none, to the last entry and keeps the flags |
| ChatInterface.ChatSession.HandleLines | recommender-pe-rag-react/src/components/ChatInterface.jsx:131-164 | the lines are handled in order until the end line; the transcript gains exactly the texts of the lines before it, and the session stops iff the end line occurs |
| ChatInterface.ChatSession.FeedChunk | recommender-pe-rag-react/src/components/ChatInterface.jsx:123-164 | the new buffer is the text after the last '\n' of the old buffer plus the chunk, and only the complete lines before it are handled |
| ChatInterface.ChatSession.ReadChunks | recommender-pe-rag-react/src/components/ChatInterface.jsx:116-165 | feeding chunks one by one appends exactly what their concatenation's complete lines define, so the result is independent of chunk boundaries; a final unterminated tail is never handled; the session is idle with no controller after the end line, and its stream flags are unchanged otherwise |
| ChatInterface.ChatSession.OnError | recommender-pe-rag-react/src/components/ChatInterface.jsx:166-174 | a non-abort failure adds the connection-error marker to the last entry; an abort adds nothing. It uses the guarded `MarkError` (see "## Findings"), which leaves an empty transcript as it is; the code as written throws there |
| ChatInterface.ChatSession.Consume | recommender-pe-rag-react/src/components/ChatInterface.jsx:116-178 | the whole read with catch and finally: the streamed text is appended, the marker is added iff the stream failed without an abort before its end line, and every path ends idle with no controller. The marker goes through the guarded `MarkError` (see "## Findings"); the code as written throws on an empty transcript |
| ChatInterface.EmptyTranscriptOnError | recommender-pe-rag-react/src/components/ChatInterface.jsx:169-173 | a reachable session state in which the error update as written fails and the guarded one leaves the transcript empty |
| ChatHistory.PrevPage | recommender-pe-rag-react/src/components/ChatHistory.jsx:91 | the previous step never goes below page 0, and goes back exactly one page whenever it can |
| ChatHistory.NextPage | recommender-pe-rag-react/src/components/ChatHistory.jsx:99 | the next step never passes the last page, and goes forward exactly one page whenever it can |
| ChatHistory.PrevDisabled | recommender-pe-rag-react/src/components/ChatHistory.jsx:92 | definition of the previous button's `disabled`: first page or loading; PrevDisabledIffStuck says when it holds |
| ChatHistory.NextDisabled | recommender-pe-rag-react/src/components/ChatHistory.jsx:100 | definition of the next button's `disabled`: last page or beyond, or loading; NextDisabledIffStuck says when it holds |
| ChatHistory.PrevDisabledIffStuck | recommender-pe-rag-react/src/components/ChatHistory.jsx:91-92 | the previous button is disabled exactly when loading or when a click would not move the page |
| ChatHistory.NextDisabledIffStuck | recommender-pe-rag-react/src/components/ChatHistory.jsx:99-100 | on a page in range, the next button is disabled exactly when loading or when a click would not move the page |
| ChatHistory.PrevUndoesNext | recommender-pe-rag-react/src/components/ChatHistory.jsx:91-100 | an enabled next step is undone by a previous step |
| ChatHistory.NextUndoesPrev | recommender-pe-rag-react/src/components/ChatHistory.jsx:91-100 | an enabled previous step is undone by a next step |
| ChatHistory.WalkStaysInRange | recommender-pe-rag-react/src/components/ChatHistory.jsx:87-99 | while the pager is shown, no sequence of clicks takes a page in range out of range |
| ChatHistory.PageIndicator | recommender-pe-rag-react/src/components/ChatHistory.jsx:96 | the indicator shows the page plus one over the page count, and reads from 1 to the page count on a page in range |
| ChatHistory.Preview | recommender-pe-rag-react/src/components/ChatHistory.jsx:78 | the first question when there is one, otherwise "Sem mensagem" |
| ChatHistory.PreviewOpensTranscript | recommender-pe-rag-react/src/components/ChatHistory.jsx:78 | the preview is the user entry the chat opens with once the conversation is loaded |
| ChatHistory.HistoryPager.constructor | recommender-pe-rag-react/src/components/ChatHistory.jsx:7-10 | no conversations, page 0, no pages, not loading |
| ChatHistory.HistoryPager.BeginLoad | recommender-pe-rag-react/src/components/ChatHistory.jsx:12-16 | loading starts, and the current page is requested with size 10 |
| ChatHistory.HistoryPager.CompleteLoad | recommender-pe-rag-react/src/components/ChatHistory.jsx:17-23 | a response replaces the list and the page count; a failure keeps both; loading ends either way |
| ChatHistory.HistoryPager.ClickPrev | recommender-pe-rag-react/src/components/ChatHistory.jsx:90-93 | a click on the enabled button (off the first page, no load running) moves the page back by one, keeping it non-negative and below the page count if it was |
| ChatHistory.HistoryPager.ClickNext | recommender-pe-rag-react/src/components/ChatHistory.jsx:87-101 | with the pager shown, a click on the enabled button (before the last page, no load running) moves the page forward by one and keeps it below the page count |

## Left out

- Network and transport: `fetch`, the response status check, `AbortController`, `reader.read()` and `TextDecoder` are browser APIs. The consumer takes the already decoded chunks. `Ending` says how the read ends: the reader reports done, the request is aborted, or it fails in any other way (a failed request, a status that is not ok, or a read error).
- The request URL: the base URL and `encodeURIComponent` are not modelled. `ChatRequest` carries the model id and the trimmed message.
- React scheduling: each state update is an immediate assignment, and the updates of one handler run in order. The interleaving of a stream with other handlers is not modelled inside `Consume`, which runs as one step. `EmptyTranscriptOnError` shows one interleaving by calling the operations in sequence.
- ChatInterface.ChatSession.Hydrate: the method is the body of the effect, not the effect's dependency check. The effect runs only when the picked conversation changes identity, so picking the already loaded conversation again (the same object, with no history reload in between) changes nothing in the component, while calling `Hydrate` again reloads it. Object identity of picks is not modelled.
- The `useEffect` wiring: a page change that triggers `loadHistory` is `ClickPrev` or `ClickNext` followed by `BeginLoad` and `CompleteLoad`.
- Timestamps, `formatDate`, `console.error` and scrolling: clocks, locale formatting, logging and the DOM.
- Rendering: `ChatMessage.jsx`, the markup, the spinner and the empty-list text. Disabling the input and the clear button while streaming is markup too. `SendMessage` still refuses a send during a stream.
- Other files: `HealthStatus.jsx` (timer polling), `api.jsx` (an HTTP wrapper), `ModelSelector.jsx` (reduced to the three ids of `ModelId`) and `App.jsx` (prop wiring) are not part of this model.
- The history badge's model label and the conversation id are not modelled.
- JsText.ToLower: maps only A–Z, U+0130 and U+212A, the characters whose lower case contains an ASCII letter. Every other character is kept. So every "deepseek"/"gemini" match is decided exactly as JavaScript decides it, but the lower-cased text is not the full Unicode lower case.
- ChatStream.Conveyable: the round trip is stated for non-empty fragments without a literal backslash-n that do not read as the end line. Other fragments cannot be carried by this protocol: an empty token reads back as a line break, and a literal backslash-n reads back as a line break.

## Findings

| source | as written | input that shows it | evidently intended | confidence | as-written member | corrected member |
|---|---|---|---|---|---|---|
| recommender-pe-rag-react/src/components/ChatInterface.jsx:169-173 | The error update writes to the entry at index length - 1 without checking that the transcript has one. The token path checks this at lines 152-153. | Send a message. While it streams, pick a stored conversation whose questions or answers are missing: the history list stays enabled, and the transcript becomes empty. Then let the connection fail. The update reads an undefined entry and throws a TypeError. | Leave an empty transcript alone, as the token path does. | not executed | ChatInterface.MarkErrorAsWritten, ChatInterface.EmptyTranscriptOnError | ChatInterface.MarkError |
