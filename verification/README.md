# Chat relay core, modelled in Dafny

This project models the client core of a small Express server (`src/openAiClient.ts`). The
server relays a chat with a streaming completion provider to the viewers of a session.
The model covers:

- **Session map** (`SessionManager`): one `OpenAiClient` per session id. It is created the
  first time the id is asked for and returned on every later call.
- **History** (`ChatClient`): the ordered `{role, content}` list. It starts with the default
  system prompt. `setSystemPrompt` replaces it, `processMessage` pushes the user's message,
  and `addAssistantMessage` pushes one assistant entry per non-empty content delta.
- **Chunk decoder** (`ChunkDecoder`, `Text`): a decoded chunk is split on line feeds. Each
  line loses one leading `data: ` and is trimmed. Empty lines are dropped.
- **Per-line handling** (`ChatClient.HandleLine`, `HandleLines`): the `[DONE]` sentinel is
  pushed as a fragment. Any other line is parsed; a non-empty content becomes a fragment
  and an assistant message. A line that fails to parse throws out of the handler.
- **Sentence splitter** (`Segmenter`): the chunk's fragments are joined with one space. The
  text is split on every whitespace run that follows `.`, `!` or `?`, and empty pieces go.
- **Connections and broadcast** (`ChatClient`): response streams are kept in a list. The
  close handler filters a stream out. Once per chunk, every stream gets
  `data: <sentences joined by line feeds>\n\n`, the server-sent-events framing of section
  9.2 of the WHATWG HTML Living Standard.

Files: `wrappers.dfy` (Option), `seqs.dfy` (subsequences, filtering out one value),
`text.dfy` (JavaScript whitespace, `trim`, `split`, `join`), `decoder.dfy`, `segmenter.dfy`,
`client.dfy` and `manager.dfy`.

Abstractions:

- The provider call is the parameter `respond`, which maps the request's messages to the
  chunks streamed back.
- `TextDecoder` is left out: a chunk is an already-decoded string.
- `JSON.parse` and the destructuring after it form the parameter `parse`. It maps a line to
  `Malformed` (the code throws) or to `Delta(content)`.
- A response stream is a `Connection` value. Equality stands for object identity.
- Writes to streams are returned as a list of `Write(connection, text)` records.
- `getInstance` returns a reference, so an operation on the returned client changes what the
  map holds. In the model the map holds client values, and `WithSession` stores the
  operation's result back under the id.

The model follows what the code does. It differs from a tidier design in these ways:

- Each non-empty delta becomes its own assistant message. Deltas are not concatenated
  into one message.
- Sentences are cut per chunk, from that chunk's fragments only. No fragment is held over
  to the next chunk.
- `[DONE]` does not end processing. It is pushed as a fragment and broadcast like a
  sentence.
- Nothing is flushed at the end of the stream.
- Every chunk is broadcast, even when it yields no sentence. The frame is then
  `data: \n\n`.
- A malformed line throws inside the event handler, and nothing tells `processMessage`.
  Assistant messages pushed by earlier lines of the same chunk stay in the history, and
  that chunk is not broadcast.

## Model

| member | source | states |
|---|---|---|
| Text.Trim | src/openAiClient.ts:40 | The trimmed line has no whitespace at either end (JavaScript WhiteSpace and LineTerminator code points) |
| Text.TrimRemovesPadding | src/openAiClient.ts:40 | Trimming removes only whitespace, and only from the two ends: the result is an infix of the line with all-whitespace text on each side |
| Text.TrimPadded | src/openAiClient.ts:40 | Trimming whitespace-padded, already-trimmed text gives back exactly that text |
| Text.SplitOn | src/openAiClient.ts:38 | Splitting on the line feed gives at least one piece, and no piece contains a line feed |
| Text.JoinSplitOn | src/openAiClient.ts:38 | The pieces, joined again with line feeds, give back the chunk: splitting loses nothing |
| Text.SplitOnJoin | src/openAiClient.ts:38 | Splitting a line-feed join of line-feed-free pieces gives back exactly those pieces |
| ChunkDecoder.StripDataPrefix | src/openAiClient.ts:40 | A line starting with `data: ` loses exactly that one prefix; any other line is unchanged |
| ChunkDecoder.DecodeLinesShape | src/openAiClient.ts:38-41 | Every decoded line is non-empty and has no leading or trailing whitespace |
| ChunkDecoder.CleanLine | src/openAiClient.ts:40 | A mapped line has no whitespace at either end |
| ChunkDecoder.DecodeLinesOrder | src/openAiClient.ts:38-41 | The decoded lines are the chunk's cleaned lines in chunk order: a subsequence that keeps every non-empty one as often as it occurs |
| ChunkDecoder.DecodeFramedLines | src/openAiClient.ts:38-41 | Decoding a chunk of `data: <payload>` lines with trimmed, non-empty payloads yields exactly those payloads, in order |
| Segmenter.FirstBreak | src/openAiClient.ts:64 | Finds the first index where a terminal mark is followed by whitespace, or reports that there is none |
| Segmenter.RunEnd | src/openAiClient.ts:64 | The greedy whitespace match ends at the end of the maximal whitespace run |
| Segmenter.SplitSentencesSpec | src/openAiClient.ts:62-65 | No piece is empty. Every piece but the last ends in `.`, `!` or `?`. No piece holds a mark followed by whitespace. The pieces concatenate to the text minus every whitespace run that follows a mark, and nothing else is removed |
| Segmenter.SplitAtBreaksPieces | src/openAiClient.ts:64 | Before the empty-piece filter, every piece but the last is non-empty and ends in a mark, and no piece holds a break |
| Segmenter.SplitAtBreaksContent | src/openAiClient.ts:64 | Before the filter, the pieces joined with the empty separator equal the reference deletion of the whitespace runs after marks |
| Segmenter.DropEmptyKeepsCuts | src/openAiClient.ts:65 | Dropping empty pieces keeps the sentence shape and the pieces' join with the empty separator |
| Segmenter.SplitSentencesCuts | src/openAiClient.ts:62-65 | The text is the sentences interleaved with whitespace runs: after each sentence but the last a non-empty run that follows its closing mark, and the next sentence does not start with whitespace, so each run is maximal. Only whitespace after the last mark may trail |
| Segmenter.SplitSentencesUnique | src/openAiClient.ts:62-65 | Converse: any non-empty pieces without an inner break, interleaved with such runs into the text, are exactly the sentences returned, so the cut positions are fixed |
| Segmenter.SplitAtBreaksRejoin | src/openAiClient.ts:64 | Before the filter, the pieces interleaved with the matched whitespace runs rebuild the text, and each run is maximal |
| Segmenter.DropEmptyKeepsRuns | src/openAiClient.ts:65 | Dropping empty pieces keeps an interleaving with maximal whitespace runs that rebuilds the same text |
| Segmenter.SplitSentencesOfJoin | src/openAiClient.ts:62-65 | Inverse: whole sentences joined by single spaces are split back into exactly those sentences |
| ChatClient.NewClient | src/openAiClient.ts:18-20 | A fresh client has no connections and exactly one system message holding the default prompt |
| ChatClient.SetSystemPrompt | src/openAiClient.ts:93-95 | The history becomes exactly one system message with the new prompt. Connections are untouched |
| ChatClient.AddUserMessage | src/openAiClient.ts:99 | Exactly one user message is appended at the end, and earlier entries are untouched |
| ChatClient.AddAssistantMessage | src/openAiClient.ts:72-74 | Exactly one assistant message with the given content is appended, and earlier entries are untouched |
| ChatClient.AddConnection | src/openAiClient.ts:84-85 | The response stream joins the end of the connection list. The history is untouched |
| ChatClient.RemoveConnection | src/openAiClient.ts:88-90 | After close, the stream is nowhere in the list, every remaining entry was already there, and the history is untouched |
| ChatClient.RemoveConnectionKeepsOthers | src/openAiClient.ts:89 | Every other connection stays, as often as before and in the same relative order |
| ChatClient.AddThenRemoveConnection | src/openAiClient.ts:84-91 | Opening then closing a new stream restores the client. Closing after one more add of the stream equals closing without it. Closing twice equals closing once |
| ChatClient.FrameShape | src/openAiClient.ts:77-80 | The frame starts with `data: `, ends with a blank line, and carries the sentences joined by line feeds in between |
| ChatClient.FrameRoundTrip | src/openAiClient.ts:77-80 | When no sentence holds a line feed, the sentences can be read back from the frame body |
| ChatClient.Broadcast | src/openAiClient.ts:76-82 | One write per connection, in list order, each carrying the same frame |
| ChatClient.HandleLine | src/openAiClient.ts:46-58 | `[DONE]` adds the literal sentinel to the fragments and leaves the history alone. A malformed payload throws with the history as it was |
| ChatClient.HandleLines | src/openAiClient.ts:45-59 | The loop only appends assistant messages to the history |
| ChatClient.HandleLinesCompletes | src/openAiClient.ts:45-59 | The loop finishes without throwing exactly when no non-sentinel line is malformed |
| ChatClient.HandleLinesMessages | src/openAiClient.ts:45-59 | The history gains one assistant message per non-empty delta before the first malformed line, in line order, and nothing else. Absent or empty contents add nothing |
| ChatClient.HandleLinesFragments | src/openAiClient.ts:45-59 | When the loop finishes, the fragments are the sentinels and the non-empty deltas in line order |
| ChatClient.AssistantCountMatchesDeltas | src/openAiClient.ts:52-54 | The number of assistant messages added equals the number of non-empty deltas |
| ChatClient.HandleChunk | src/openAiClient.ts:37-67 | A chunk never changes the connection list, only appends assistant messages, and writes once per connection when it broadcasts |
| ChatClient.HandleChunkHistory | src/openAiClient.ts:37-67 | A chunk's history effect is exactly one assistant message per non-empty delta before the first malformed line |
| ChatClient.HandleChunkBroadcasts | src/openAiClient.ts:45-66 | A chunk is broadcast exactly when none of its lines is malformed, even when it yields no sentence |
| ChatClient.HandleChunkWrites | src/openAiClient.ts:43-66 | A broadcast chunk writes to every connection, in list order, the frame of the sentences cut from its sentinels and deltas joined by spaces |
| ChatClient.Resume | src/openAiClient.ts:37-67 | One more chunk keeps the connection list and only appends assistant messages. After a throw, later chunks change nothing |
| ChatClient.ResumeWrites | src/openAiClient.ts:37-67 | A chunk after no throw either throws and writes nothing, or keeps the earlier writes and adds exactly one write per connection, in list order, with one frame |
| ChatClient.HandleStream | src/openAiClient.ts:37-67 | Over a whole stream the connection list is unchanged, and the history only gains assistant messages |
| ChatClient.HandleStreamBroadcasts | src/openAiClient.ts:37-66 | A stream without a throw makes exactly one broadcast per chunk. Each broadcast is one write per connection, in list order, all with one frame |
| ChatClient.HandleStreamWrites | src/openAiClient.ts:37-82 | When no chunk throws, the stream's writes are, chunk after chunk, one frame per connection of the sentences cut from that chunk's sentinels and deltas. Nothing else is written, and nothing is flushed at the end |
| ChatClient.HandleStreamHistory | src/openAiClient.ts:45-74 | When no chunk throws, the stream appends one assistant message per non-empty delta of every chunk, in chunk and line order, and nothing else |
| ChatClient.HandleChunkHistoryWhole | src/openAiClient.ts:37-67 | A broadcast chunk appends one assistant message per non-empty delta of all its lines, and nothing else |
| ChatClient.HandleLinesCompletedMessages | src/openAiClient.ts:45-59 | When the loop finishes without throwing, it has appended one assistant message per non-empty delta of all the lines |
| ChatClient.ProcessMessage | src/openAiClient.ts:97-103 | The provider receives the whole history with the user's message at the end. Afterwards the history extends that request with assistant messages only. Connections are unchanged |
| ChatClient.ProcessMessageHistory | src/openAiClient.ts:97-103 | After a turn the history is the old one, then the user's message, then only assistant messages |
| ChatClient.SystemMessageStaysFirst | src/openAiClient.ts:93-103 | Every operation keeps a system message first in the history |
| SessionManager.NewManager | src/openAiClient.ts:109-111 | A new manager holds no sessions |
| SessionManager.GetInstance | src/openAiClient.ts:113-120 | The returned client is the one stored under the id. An existing entry is returned with the map unchanged; otherwise a fresh client is stored. No other id's entry changes |
| SessionManager.GetInstanceIdempotent | src/openAiClient.ts:113-120 | A second call with the same id returns the same client and leaves the map unchanged |
| SessionManager.WithSession | src/openAiClient.ts:113-120 | A request routed to a session leaves the operation's result as that session's client. Every other session keeps its client |
| SessionManager.WithSessionSeenLater | src/openAiClient.ts:113-120 | A later `getInstance` for the same id returns the client the earlier operation left; one for another id returns what it would have returned anyway |
| SessionManager.WithSessionComposes | src/openAiClient.ts:113-120 | Two requests for one session equal one request doing both operations in order |
| SessionManager.WithSessionsCommute | src/openAiClient.ts:113-120 | Requests for two different sessions can be taken in either order |
| SessionManager.GetInstanceAsWritten | src/openAiClient.ts:113-120 | As written: a stored id returns its client with the map unchanged, and any client returned is the one stored under the id |
| SessionManager.AsWrittenReturnsInheritedMember | src/openAiClient.ts:114 | As written, an unstored id that names an `Object.prototype` member returns that member and creates no client |
| SessionManager.AsWrittenToStringSession | src/openAiClient.ts:114 | Concrete case: session `toString` on a fresh manager gets the inherited `toString` |
| SessionManager.AsWrittenAgreesElsewhere | src/openAiClient.ts:113-120 | For every other id, the code as written and the own-property lookup agree |

## Left out

- `src/index.ts` (Express routing, reading the session id from the header or query, the
  400/500 responses, the event-stream headers, ending the response on close): HTTP
  plumbing around the operations modelled here.
- `src/pollyClient.ts`, `src/polly.ts`: speech-synthesis SDK wrappers with no logic of their
  own.
- The provider call itself (model name, `stream: true`, transport): replaced by the
  `respond` parameter.
- A rejected provider call (`createChatCompletion` at `src/openAiClient.ts:28`): the
  rejection itself is not modelled. `processMessage` has already pushed the user message,
  so the history effect is that of `respond` returning no chunks. `src/index.ts:30-33`
  then answers 500.
- `TextDecoder`: a chunk is taken as already decoded. A multi-byte character split across
  two chunks is not modelled.
- `JSON.parse`: replaced by the `parse` parameter. A content value that is not a string is
  not modelled.
- What Node does with the exception a malformed line throws: the model stops handling the
  stream at that chunk. The `error` listener only logs, so it is left out.
- Timing and concurrency: when the promise of `processMessage` resolves, overlapping
  submissions on one session, `setSystemPrompt` or a close during a stream, and chunks
  from two completions interleaving. The model handles one operation at a time.
- Strings are sequences of Unicode scalar values, while JavaScript uses UTF-16 code units.
  Every character the code tests for lies in the Basic Multilingual Plane, so the results
  agree.
- The split limit of 2^32 - 1 pieces is not modelled.
- Write failures on a closed stream are not modelled: a write is a record in the result.
- ChatClient.HandleStreamWrites: gives the exact writes only for a stream in which no chunk
  throws. For one that throws, `HandleStreamBroadcasts` and `Resume` give their shape.
- ChatClient.HandleStreamHistory: gives the exact history only for a stream in which no
  chunk throws. For one that throws, `HandleStream` states that only assistant messages
  were appended.
- ChatClient.HandleStreamBroadcasts: for a stream that threw, it states only that fewer
  broadcasts than chunks were made. It does not name the chunk that threw.

## Findings

| source | as written | input that shows it | evidently intended | confidence | as-written member | corrected member |
|---|---|---|---|---|---|---|
| src/openAiClient.ts:107-115 | `instances` is a plain object `{}`. The truthiness test on `instances[sessionId]` also sees members inherited from `Object.prototype` | Session id `toString` (or `constructor`, `__proto__`, `valueOf`, ...) on a manager without that entry: the inherited function is returned, and calling `processMessage` or `addConnection` on it throws a TypeError | Every session id gets its own client, via an own-property lookup (a `Map`, `Object.create(null)` or `hasOwnProperty`) | high; not executed | SessionManager.AsWrittenReturnsInheritedMember | SessionManager.GetInstance |
