/** One chat client (`OpenAiClient`): its message history, the viewers' response streams it
    writes to, and the handling of the completion stream's chunks. */
module ChatClient {
  import opened Wrappers
  import opened Text
  import opened Seqs
  import opened ChunkDecoder
  import opened Segmenter

  datatype Role = System | User | Assistant

  datatype Message = Message(role: Role, content: string)

  /** A viewer's response stream. Streams are told apart by identity, as the close
      handler does with `!==`; the number stands for that identity. */
  datatype Connection = Connection(id: nat)

  datatype Client = Client(messages: seq<Message>, connections: seq<Connection>)

  const DefaultSystemPrompt: string :=
    "You are a general AI assistant. You are speaking with a human. Your goal is to be as helpful as possible similar to Siri, Alexa, or Google Assistant."

  /** The history every operation except `setSystemPrompt` may grow but never rewrites:
      the first entry is the system message. */
  ghost predicate OpensWithSystem(messages: seq<Message>)
  {
    |messages| >= 1 && messages[0].role == System
  }

  /** `after` is `before` followed by assistant messages only. */
  ghost predicate AppendsAssistant(before: seq<Message>, after: seq<Message>)
  {
    && |before| <= |after|
    && after[..|before|] == before
    && forall i :: |before| <= i < |after| ==> after[i].role == Assistant
  }

  function NewClient(): (c: Client)
    ensures c.messages == [Message(System, DefaultSystemPrompt)]
    ensures c.connections == []
  {
    Client([Message(System, DefaultSystemPrompt)], [])
  }

  /** `setSystemPrompt`: the whole history is replaced. */
  function SetSystemPrompt(c: Client, prompt: string): (r: Client)
    ensures r.messages == [Message(System, prompt)]
    ensures r.connections == c.connections
  {
    c.(messages := [Message(System, prompt)])
  }

  /** The history push at the start of `processMessage`. */
  function AddUserMessage(messages: seq<Message>, message: string): (r: seq<Message>)
    ensures |r| == |messages| + 1
    ensures r[..|messages|] == messages
    ensures r[|messages|] == Message(User, message)
  {
    messages + [Message(User, message)]
  }

  /** `addAssistantMessage`. */
  function AddAssistantMessage(messages: seq<Message>, content: string): (r: seq<Message>)
    ensures AppendsAssistant(messages, r)
    ensures |r| == |messages| + 1 && r[|messages|].content == content
  {
    messages + [Message(Assistant, content)]
  }

  // Connections

  /** `addConnection`: the response stream joins the end of the list. */
  function AddConnection(c: Client, res: Connection): (r: Client)
    ensures r.connections == c.connections + [res]
    ensures r.messages == c.messages
  {
    c.(connections := c.connections + [res])
  }

  /** The close handler registered by `addConnection`: every occurrence of the stream goes. */
  function RemoveConnection(c: Client, res: Connection): (r: Client)
    ensures res !in r.connections
    ensures forall i :: 0 <= i < |r.connections| ==> r.connections[i] in c.connections
    ensures r.messages == c.messages
  {
    c.(connections := Without(c.connections, res))
  }

  /** The other connections stay, as often as they were there and in their relative order. */
  lemma RemoveConnectionKeepsOthers(c: Client, res: Connection)
    ensures SubsequenceOf(RemoveConnection(c, res).connections, c.connections)
    ensures forall x :: x != res ==> multiset(RemoveConnection(c, res).connections)[x] == multiset(c.connections)[x]
  {
    WithoutKeepsOthers(c.connections, res);
  }

  /** Attaching a new stream and closing it restores the client; closing twice is closing once. */
  lemma AddThenRemoveConnection(c: Client, res: Connection)
    ensures res !in c.connections ==> RemoveConnection(AddConnection(c, res), res) == c
    ensures RemoveConnection(AddConnection(c, res), res) == RemoveConnection(c, res)
    ensures RemoveConnection(RemoveConnection(c, res), res) == RemoveConnection(c, res)
  {
    WithoutAppend(c.connections, [res], res);
    assert Without([res], res) == [];
    assert Without(c.connections, res) + [] == Without(c.connections, res);
    WithoutAbsent(Without(c.connections, res), res);
    if res !in c.connections {
      WithoutAbsent(c.connections, res);
    }
  }

  // Broadcast

  /** What `sendSplitSentencesToClient` writes to each stream. */
  function Frame(sentences: seq<string>): string
  {
    DataPrefix + Join(sentences, "\n") + "\n\n"
  }

  /** The frame is one `data: ` field holding the sentences joined by line feeds, closed by
      a blank line. */
  lemma FrameShape(sentences: seq<string>)
    ensures var f := Frame(sentences);
      && StartsWith(f, DataPrefix)
      && |f| >= |DataPrefix| + 2 && f[|f| - 2..] == "\n\n"
      && f[|DataPrefix|..|f| - 2] == Join(sentences, "\n")
  {
  }

  /** Round trip: the sentences can be read back from the frame's body when none of them
      holds a line feed. */
  lemma FrameRoundTrip(sentences: seq<string>)
    requires |sentences| >= 1
    requires forall i :: 0 <= i < |sentences| ==> '\n' !in sentences[i]
    ensures var f := Frame(sentences); SplitOn(f[|DataPrefix|..|f| - 2], '\n') == sentences
  {
    FrameShape(sentences);
    SplitOnJoin(sentences, '\n');
  }

  datatype Write = Write(connection: Connection, text: string)

  /** `sendSplitSentencesToClient`: one write per stream, in list order, all with the same frame. */
  function Broadcast(connections: seq<Connection>, sentences: seq<string>): (r: seq<Write>)
    ensures |r| == |connections|
    ensures forall i :: 0 <= i < |r| ==> r[i].connection == connections[i] && r[i].text == Frame(sentences)
  {
    seq(|connections|, i requires 0 <= i < |connections| => Write(connections[i], Frame(sentences)))
  }

  // The data handler

  /** What parsing a line as JSON and reading the first choice's delta yields. `Malformed`
      covers every way that throws: text that is not JSON, a missing `choices` array or
      first element, a missing `delta`. `content` is `None` when the delta has no content. */
  datatype Payload = Malformed | Delta(content: Option<string>)

  const Done: string := "[DONE]"

  /** The state of the loop over one chunk's lines, or the history left behind when a line
      threw: the exception leaves the handler before anything is broadcast, but the
      assistant messages pushed by earlier lines stay. */
  datatype LinesOutcome =
    | Completed(fragments: seq<string>, messages: seq<Message>)
    | Threw(messages: seq<Message>)

  /** One iteration of the loop. The truthiness test on the content fails for a missing or
      an empty content, and such a line changes nothing. */
  function HandleLine(fragments: seq<string>, messages: seq<Message>, line: string, parse: string -> Payload): (r: LinesOutcome)
    ensures line == Done ==> r == Completed(fragments + [Done], messages)
    ensures line != Done && parse(line).Malformed? ==> r == Threw(messages)
  {
    if line != Done then
      match parse(line)
      case Malformed => Threw(messages)
      case Delta(content) =>
        if content.Some? && content.value != "" then
          Completed(fragments + [content.value], AddAssistantMessage(messages, content.value))
        else
          Completed(fragments, messages)
    else
      Completed(fragments + [line], messages)
  }

  /** The `for` loop over a chunk's lines. */
  function HandleLines(lines: seq<string>, parse: string -> Payload, fragments: seq<string>, messages: seq<Message>): (r: LinesOutcome)
    ensures AppendsAssistant(messages, r.messages)
    decreases |lines|
  {
    if lines == [] then Completed(fragments, messages)
    else
      match HandleLine(fragments, messages, lines[0], parse)
      case Threw(ms) => Threw(ms)
      case Completed(fs, ms) => HandleLines(lines[1..], parse, fs, ms)
  }

  // Reference definitions for the loop

  ghost predicate IsMalformed(line: string, parse: string -> Payload)
  {
    line != Done && parse(line).Malformed?
  }

  /** The content a line contributes to the history: a parsed, non-empty delta. */
  function ContentOf(line: string, parse: string -> Payload): Option<string>
  {
    if line != Done && parse(line).Delta? && parse(line).content.Some? && parse(line).content.value != ""
    then Some(parse(line).content.value)
    else None
  }

  /** The index of the first line that throws, or the number of lines. */
  function FirstMalformed(lines: seq<string>, parse: string -> Payload): (n: nat)
    ensures n <= |lines|
    ensures forall i :: 0 <= i < n ==> !IsMalformed(lines[i], parse)
    ensures n < |lines| ==> IsMalformed(lines[n], parse)
    decreases |lines|
  {
    if lines == [] then 0
    else if lines[0] != Done && parse(lines[0]).Malformed? then 0
    else 1 + FirstMalformed(lines[1..], parse)
  }

  /** The non-empty content deltas of `lines`, in order. */
  function Deltas(lines: seq<string>, parse: string -> Payload): seq<string>
    decreases |lines|
  {
    if lines == [] then []
    else
      match ContentOf(lines[0], parse)
      case Some(d) => [d] + Deltas(lines[1..], parse)
      case None => Deltas(lines[1..], parse)
  }

  /** What each line pushes onto the fragment list: the sentinel itself, or its content. */
  function Fragments(lines: seq<string>, parse: string -> Payload): seq<string>
    decreases |lines|
  {
    if lines == [] then []
    else if lines[0] == Done then [Done] + Fragments(lines[1..], parse)
    else
      match ContentOf(lines[0], parse)
      case Some(d) => [d] + Fragments(lines[1..], parse)
      case None => Fragments(lines[1..], parse)
  }

  function AssistantMessages(contents: seq<string>): (r: seq<Message>)
    ensures |r| == |contents|
    ensures forall i :: 0 <= i < |r| ==> r[i] == Message(Assistant, contents[i])
  {
    seq(|contents|, i requires 0 <= i < |contents| => Message(Assistant, contents[i]))
  }

  /** The loop completes exactly when no line throws. */
  lemma {:induction false} HandleLinesCompletes(lines: seq<string>, parse: string -> Payload, fragments: seq<string>, messages: seq<Message>)
    ensures HandleLines(lines, parse, fragments, messages).Completed? <==> FirstMalformed(lines, parse) == |lines|
    decreases |lines|
  {
    if lines != [] && !IsMalformed(lines[0], parse) {
      var step := HandleLine(fragments, messages, lines[0], parse);
      HandleLinesCompletes(lines[1..], parse, step.fragments, step.messages);
    }
  }

  /** The loop appends one assistant message per non-empty delta read before the first
      line that throws, in line order, and nothing else. */
  lemma {:induction false} HandleLinesMessages(lines: seq<string>, parse: string -> Payload, fragments: seq<string>, messages: seq<Message>)
    ensures HandleLines(lines, parse, fragments, messages).messages
      == messages + AssistantMessages(Deltas(lines[..FirstMalformed(lines, parse)], parse))
    decreases |lines|
  {
    var n := FirstMalformed(lines, parse);
    if lines == [] || IsMalformed(lines[0], parse) {
      assert n == 0 && lines[..n] == [];
      assert messages + [] == messages;
    } else {
      var line := lines[0];
      var step := HandleLine(fragments, messages, line, parse);
      HandleLinesMessages(lines[1..], parse, step.fragments, step.messages);
      var m := FirstMalformed(lines[1..], parse);
      var tail := Deltas(lines[1..][..m], parse);
      assert lines[..n] == [line] + lines[1..][..m];
      assert ([line] + lines[1..][..m])[1..] == lines[1..][..m];
      match ContentOf(line, parse)
      case Some(d) =>
        assert step.messages == messages + [Message(Assistant, d)];
        assert Deltas(lines[..n], parse) == [d] + tail;
        assert AssistantMessages([d] + tail) == [Message(Assistant, d)] + AssistantMessages(tail);
      case None =>
        assert step.messages == messages;
        assert Deltas(lines[..n], parse) == tail;
    }
  }

  /** When the loop completes, the fragments are the sentinels and the non-empty deltas,
      in line order. */
  lemma {:induction false} HandleLinesFragments(lines: seq<string>, parse: string -> Payload, fragments: seq<string>, messages: seq<Message>)
    ensures HandleLines(lines, parse, fragments, messages).Completed? ==>
      HandleLines(lines, parse, fragments, messages).fragments == fragments + Fragments(lines, parse)
    decreases |lines|
  {
    if lines == [] {
      assert fragments + [] == fragments;
    } else if !IsMalformed(lines[0], parse) {
      var step := HandleLine(fragments, messages, lines[0], parse);
      HandleLinesFragments(lines[1..], parse, step.fragments, step.messages);
      var tail := Fragments(lines[1..], parse);
      if lines[0] == Done {
        assert fragments + [Done] + tail == fragments + ([Done] + tail);
      } else {
        match ContentOf(lines[0], parse)
        case Some(d) =>
          assert fragments + [d] + tail == fragments + ([d] + tail);
        case None =>
      }
    }
  }

  /** Corollary: the number of assistant messages a chunk's lines add is the number of
      non-empty deltas among them (up to a line that throws). */
  lemma AssistantCountMatchesDeltas(lines: seq<string>, parse: string -> Payload, messages: seq<Message>)
    ensures |HandleLines(lines, parse, [], messages).messages| - |messages|
      == |Deltas(lines[..FirstMalformed(lines, parse)], parse)|
  {
    HandleLinesMessages(lines, parse, [], messages);
  }

  /** The outcome of one `data` event. */
  datatype ChunkOutcome =
    | Broadcasted(client: Client, writes: seq<Write>)
    | Aborted(client: Client)

  /** The sentences one chunk's fragments are cut into. */
  function ChunkSentences(fragments: seq<string>): seq<string>
  {
    SplitSentences(Join(fragments, " "))
  }

  /** The `data` handler for one decoded chunk. */
  function HandleChunk(c: Client, chunk: string, parse: string -> Payload): (r: ChunkOutcome)
    ensures r.client.connections == c.connections
    ensures AppendsAssistant(c.messages, r.client.messages)
    ensures r.Broadcasted? ==> |r.writes| == |c.connections|
  {
    match HandleLines(DecodeLines(chunk), parse, [], c.messages)
    case Threw(ms) => Aborted(c.(messages := ms))
    case Completed(fragments, ms) =>
      Broadcasted(c.(messages := ms), Broadcast(c.connections, ChunkSentences(fragments)))
  }

  /** One chunk's history: each non-empty delta before the first malformed line adds its
      own assistant message, and nothing else is added. */
  lemma HandleChunkHistory(c: Client, chunk: string, parse: string -> Payload)
    ensures HandleChunk(c, chunk, parse).client.messages
      == c.messages + AssistantMessages(Deltas(DecodeLines(chunk)[..FirstMalformed(DecodeLines(chunk), parse)], parse))
  {
    HandleLinesMessages(DecodeLines(chunk), parse, [], c.messages);
  }

  /** A chunk is broadcast exactly when none of its lines is malformed, whether or not it
      yields any sentence. */
  lemma HandleChunkBroadcasts(c: Client, chunk: string, parse: string -> Payload)
    ensures HandleChunk(c, chunk, parse).Broadcasted?
      <==> forall i :: 0 <= i < |DecodeLines(chunk)| ==> !IsMalformed(DecodeLines(chunk)[i], parse)
  {
    var lines := DecodeLines(chunk);
    HandleLinesCompletes(lines, parse, [], c.messages);
    var n := FirstMalformed(lines, parse);
    if n < |lines| {
      assert IsMalformed(lines[n], parse);
    }
  }

  /** What a broadcast chunk writes: every stream, in list order, gets the frame of the
      sentences cut from the chunk's sentinels and deltas joined by spaces. */
  lemma HandleChunkWrites(c: Client, chunk: string, parse: string -> Payload)
    ensures HandleChunk(c, chunk, parse).Broadcasted? ==>
      HandleChunk(c, chunk, parse).writes == Broadcast(c.connections, ChunkSentences(Fragments(DecodeLines(chunk), parse)))
  {
    var lines := DecodeLines(chunk);
    HandleLinesFragments(lines, parse, [], c.messages);
    assert [] + Fragments(lines, parse) == Fragments(lines, parse);
  }

  /** The outcome of a whole completion stream: the client afterwards, every write made, and
      whether a chunk threw (after which no further chunk is handled). */
  datatype StreamOutcome = StreamOutcome(client: Client, writes: seq<Write>, aborted: bool)

  /** Folds one chunk's outcome into the stream's: a throw ends the stream, a broadcast
      adds its writes after the earlier ones. */
  function Absorb(before: StreamOutcome, out: ChunkOutcome): (r: StreamOutcome)
    ensures r.client == out.client && r.aborted == out.Aborted?
    ensures out.Aborted? ==> r.writes == before.writes
    ensures out.Broadcasted? ==> r.writes == before.writes + out.writes
  {
    match out
    case Aborted(next) => StreamOutcome(next, before.writes, true)
    case Broadcasted(next, writes) => StreamOutcome(next, before.writes + writes, false)
  }

  /** Handling one more chunk after the earlier ones: nothing if one of them threw. */
  function Resume(before: StreamOutcome, chunk: string, parse: string -> Payload): (r: StreamOutcome)
    ensures r.client.connections == before.client.connections
    ensures AppendsAssistant(before.client.messages, r.client.messages)
    ensures before.aborted ==> r == before
  {
    if before.aborted then before
    else Absorb(before, HandleChunk(before.client, chunk, parse))
  }

  /** A stream that has not thrown either throws on the next chunk and writes nothing more,
      or broadcasts that chunk once to its streams. */
  lemma ResumeWrites(before: StreamOutcome, chunk: string, parse: string -> Payload)
    requires !before.aborted
    ensures var r := Resume(before, chunk, parse);
      && (r.aborted ==> r.writes == before.writes)
      && (!r.aborted ==> && |r.writes| == |before.writes| + |before.client.connections|
                         && r.writes[..|before.writes|] == before.writes
                         && OneBroadcast(r.writes[|before.writes|..], before.client.connections))
  {
    var out := HandleChunk(before.client, chunk, parse);
    if out.Broadcasted? {
      var r := Resume(before, chunk, parse);
      assert r.writes == before.writes + out.writes;
      assert r.writes[..|before.writes|] == before.writes;
      assert r.writes[|before.writes|..] == out.writes;
    }
  }

  /** The chunks of one completion, handled in arrival order: a left fold of `Resume`.
      Nothing happens after the last chunk: there is no flush at the end of the stream. */
  function HandleStream(c: Client, chunks: seq<string>, parse: string -> Payload): (r: StreamOutcome)
    ensures r.client.connections == c.connections
    ensures AppendsAssistant(c.messages, r.client.messages)
    decreases |chunks|
  {
    if chunks == [] then StreamOutcome(c, [], false)
    else
      var before := HandleStream(c, chunks[..|chunks| - 1], parse);
      var r := Resume(before, chunks[|chunks| - 1], parse);
      AppendsAssistantTransitive(c.messages, before.client.messages, r.client.messages);
      r
  }

  lemma AppendsAssistantTransitive(a: seq<Message>, b: seq<Message>, c: seq<Message>)
    requires AppendsAssistant(a, b) && AppendsAssistant(b, c)
    ensures AppendsAssistant(a, c)
  {
    assert c[..|a|] == c[..|b|][..|a|];
  }

  /** Reference for a stream that does not throw: each chunk's own broadcast, in arrival
      order, and nothing after the last one. */
  function StreamWrites(cs: seq<Connection>, chunks: seq<string>, parse: string -> Payload): seq<Write>
    decreases |chunks|
  {
    if chunks == [] then []
    else
      StreamWrites(cs, chunks[..|chunks| - 1], parse)
        + Broadcast(cs, ChunkSentences(Fragments(DecodeLines(chunks[|chunks| - 1]), parse)))
  }

  /** Reference: the non-empty deltas of every chunk, in arrival order. */
  function StreamDeltas(chunks: seq<string>, parse: string -> Payload): seq<string>
    decreases |chunks|
  {
    if chunks == [] then []
    else StreamDeltas(chunks[..|chunks| - 1], parse) + Deltas(DecodeLines(chunks[|chunks| - 1]), parse)
  }

  /** A stream that does not throw writes, chunk by chunk, the frame of that chunk's own
      sentences to every connection; sentences are never carried over to the next chunk,
      and nothing is written after the last chunk. */
  lemma {:induction false} HandleStreamWrites(c: Client, chunks: seq<string>, parse: string -> Payload)
    ensures var r := HandleStream(c, chunks, parse);
      !r.aborted ==> r.writes == StreamWrites(c.connections, chunks, parse)
    decreases |chunks|
  {
    if chunks != [] {
      var init := chunks[..|chunks| - 1];
      HandleStreamWrites(c, init, parse);
      ResumeWritesExactly(HandleStream(c, init, parse), chunks[|chunks| - 1], parse, c.connections, StreamWrites(c.connections, init, parse));
    }
  }

  /** The induction step of `HandleStreamWrites`. */
  lemma ResumeWritesExactly(before: StreamOutcome, chunk: string, parse: string -> Payload, cs: seq<Connection>, earlier: seq<Write>)
    requires before.client.connections == cs
    requires !before.aborted ==> before.writes == earlier
    ensures var r := Resume(before, chunk, parse);
      !r.aborted ==> r.writes == earlier + Broadcast(cs, ChunkSentences(Fragments(DecodeLines(chunk), parse)))
  {
    if !before.aborted {
      HandleChunkWrites(before.client, chunk, parse);
    }
  }

  /** A stream that does not throw adds, after the request, one assistant message per
      non-empty delta of every chunk, in arrival order, and nothing else. */
  lemma {:induction false} HandleStreamHistory(c: Client, chunks: seq<string>, parse: string -> Payload)
    ensures var r := HandleStream(c, chunks, parse);
      !r.aborted ==> r.client.messages == c.messages + AssistantMessages(StreamDeltas(chunks, parse))
    decreases |chunks|
  {
    if chunks == [] {
      assert c.messages + [] == c.messages;
    } else {
      var init := chunks[..|chunks| - 1];
      HandleStreamHistory(c, init, parse);
      ResumeHistoryExactly(HandleStream(c, init, parse), chunks[|chunks| - 1], parse, c.messages, StreamDeltas(init, parse));
    }
  }

  /** The induction step of `HandleStreamHistory`. */
  lemma ResumeHistoryExactly(before: StreamOutcome, chunk: string, parse: string -> Payload, h: seq<Message>, ds: seq<string>)
    requires !before.aborted ==> before.client.messages == h + AssistantMessages(ds)
    ensures var r := Resume(before, chunk, parse);
      !r.aborted ==> r.client.messages == h + AssistantMessages(ds + Deltas(DecodeLines(chunk), parse))
  {
    if !before.aborted {
      var m := before.client.messages;
      var chunkDeltas := Deltas(DecodeLines(chunk), parse);
      ResumeHistoryStep(before, chunk, parse);
      AppendAssistantMessages(h, ds, chunkDeltas, m);
    }
  }

  lemma ResumeHistoryStep(before: StreamOutcome, chunk: string, parse: string -> Payload)
    requires !before.aborted
    ensures var r := Resume(before, chunk, parse);
      !r.aborted ==> r.client.messages == before.client.messages + AssistantMessages(Deltas(DecodeLines(chunk), parse))
  {
    HandleChunkHistoryWhole(before.client, chunk, parse);
  }

  lemma AppendAssistantMessages(h: seq<Message>, ds: seq<string>, es: seq<string>, m: seq<Message>)
    requires m == h + AssistantMessages(ds)
    ensures m + AssistantMessages(es) == h + AssistantMessages(ds + es)
  {
    AssistantMessagesAppend(ds, es);
  }

  /** A chunk that is broadcast adds one assistant message per non-empty delta of all its
      lines. */
  lemma HandleChunkHistoryWhole(c: Client, chunk: string, parse: string -> Payload)
    ensures HandleChunk(c, chunk, parse).Broadcasted? ==>
      HandleChunk(c, chunk, parse).client.messages == c.messages + AssistantMessages(Deltas(DecodeLines(chunk), parse))
  {
    HandleLinesCompletedMessages(DecodeLines(chunk), parse, [], c.messages);
  }

  /** When the loop completes, every line's non-empty delta was pushed. */
  lemma HandleLinesCompletedMessages(lines: seq<string>, parse: string -> Payload, fragments: seq<string>, messages: seq<Message>)
    ensures var r := HandleLines(lines, parse, fragments, messages);
      r.Completed? ==> r.messages == messages + AssistantMessages(Deltas(lines, parse))
  {
    HandleLinesCompletes(lines, parse, fragments, messages);
    HandleLinesMessages(lines, parse, fragments, messages);
    assert lines[..|lines|] == lines;
  }

  lemma AssistantMessagesAppend(a: seq<string>, b: seq<string>)
    ensures AssistantMessages(a + b) == AssistantMessages(a) + AssistantMessages(b)
  {
  }

  /** One broadcast: one write per stream, in list order, all with the same frame. */
  ghost predicate OneBroadcast(block: seq<Write>, cs: seq<Connection>)
  {
    && |block| == |cs|
    && forall j :: 0 <= j < |cs| ==> block[j].connection == cs[j] && block[j].text == block[0].text
  }

  /** `writes` is `k` broadcasts in a row. */
  ghost predicate Broadcasts(writes: seq<Write>, cs: seq<Connection>, k: nat)
    decreases k
  {
    if k == 0 then writes == []
    else |cs| <= |writes| && OneBroadcast(writes[..|cs|], cs) && Broadcasts(writes[|cs|..], cs, k - 1)
  }

  /** Every chunk handled without a throw is broadcast once, even when it yields no
      sentences: a stream that did not throw made one broadcast per chunk, and one that
      threw made one per chunk before the one that threw. */
  lemma {:induction false} HandleStreamBroadcasts(c: Client, chunks: seq<string>, parse: string -> Payload)
    ensures var r := HandleStream(c, chunks, parse);
      !r.aborted ==> Broadcasts(r.writes, c.connections, |chunks|)
    ensures var r := HandleStream(c, chunks, parse);
      r.aborted ==> exists k :: 0 <= k < |chunks| && Broadcasts(r.writes, c.connections, k)
    decreases |chunks|
  {
    if chunks != [] {
      var init := chunks[..|chunks| - 1];
      HandleStreamBroadcasts(c, init, parse);
      ResumeBroadcasts(HandleStream(c, init, parse), chunks[|chunks| - 1], parse, c.connections, |init|);
    }
  }

  /** The induction step: one more chunk after `k` broadcasts. */
  lemma ResumeBroadcasts(before: StreamOutcome, chunk: string, parse: string -> Payload, cs: seq<Connection>, k: nat)
    requires before.client.connections == cs
    requires !before.aborted ==> Broadcasts(before.writes, cs, k)
    requires before.aborted ==> exists j :: 0 <= j < k && Broadcasts(before.writes, cs, j)
    ensures var r := Resume(before, chunk, parse);
      !r.aborted ==> Broadcasts(r.writes, cs, k + 1)
    ensures var r := Resume(before, chunk, parse);
      r.aborted ==> exists j :: 0 <= j < k + 1 && Broadcasts(r.writes, cs, j)
  {
    var r := Resume(before, chunk, parse);
    if before.aborted {
      var j :| 0 <= j < k && Broadcasts(before.writes, cs, j);
      assert r == before;
      assert 0 <= j < k + 1 && Broadcasts(r.writes, cs, j);
    } else {
      ResumeWrites(before, chunk, parse);
      if r.aborted {
        assert r.writes == before.writes;
        assert 0 <= k < k + 1 && Broadcasts(r.writes, cs, k);
      } else {
        var block := r.writes[|before.writes|..];
        assert r.writes == before.writes + block;
        BroadcastsSnoc(before.writes, block, cs, k);
      }
    }
  }

  /** One more broadcast after `k` of them makes `k + 1`. */
  lemma {:induction false} BroadcastsSnoc(writes: seq<Write>, block: seq<Write>, cs: seq<Connection>, k: nat)
    requires Broadcasts(writes, cs, k) && OneBroadcast(block, cs)
    ensures Broadcasts(writes + block, cs, k + 1)
    decreases k
  {
    if k == 0 {
      assert writes + block == block;
      assert block[|cs|..] == [];
      assert block[..|cs|] == block;
    } else {
      BroadcastsSnoc(writes[|cs|..], block, cs, k - 1);
      assert (writes + block)[..|cs|] == writes[..|cs|];
      assert (writes + block)[|cs|..] == writes[|cs|..] + block;
    }
  }

  /** A request to the completion provider and the chunk stream it answers with. */
  datatype Turn = Turn(request: seq<Message>, outcome: StreamOutcome)

  /** `processMessage`: push the user's message, send the whole history to the provider
      (`respond`), and handle the chunks it streams back. */
  function ProcessMessage(c: Client, message: string, respond: seq<Message> -> seq<string>, parse: string -> Payload): (r: Turn)
    ensures r.request == c.messages + [Message(User, message)]
    ensures AppendsAssistant(r.request, r.outcome.client.messages)
    ensures r.outcome.client.connections == c.connections
  {
    var asked := c.(messages := AddUserMessage(c.messages, message));
    Turn(asked.messages, HandleStream(asked, respond(asked.messages), parse))
  }

  /** After a turn the history is the old one, the user's message, then assistant messages
      only; earlier entries are untouched. */
  lemma ProcessMessageHistory(c: Client, message: string, respond: seq<Message> -> seq<string>, parse: string -> Payload)
    ensures var h := ProcessMessage(c, message, respond, parse).outcome.client.messages;
      && |h| > |c.messages|
      && h[..|c.messages|] == c.messages
      && h[|c.messages|] == Message(User, message)
      && forall i :: |c.messages| < i < |h| ==> h[i].role == Assistant
  {
    var r := ProcessMessage(c, message, respond, parse);
    var h := r.outcome.client.messages;
    assert h[..|r.request|] == r.request;
    assert h[..|c.messages|] == r.request[..|c.messages|];
  }

  /** Every operation but `setSystemPrompt` keeps the system message first; `setSystemPrompt`
      puts one there. */
  lemma SystemMessageStaysFirst(c: Client, s: string, res: Connection, chunk: string, respond: seq<Message> -> seq<string>, parse: string -> Payload)
    requires OpensWithSystem(c.messages)
    ensures OpensWithSystem(NewClient().messages)
    ensures OpensWithSystem(SetSystemPrompt(c, s).messages)
    ensures OpensWithSystem(AddConnection(c, res).messages)
    ensures OpensWithSystem(RemoveConnection(c, res).messages)
    ensures OpensWithSystem(HandleChunk(c, chunk, parse).client.messages)
    ensures OpensWithSystem(ProcessMessage(c, s, respond, parse).outcome.client.messages)
  {
    var h := HandleChunk(c, chunk, parse).client.messages;
    assert h[..|c.messages|] == c.messages;
    ProcessMessageHistory(c, s, respond, parse);
    var p := ProcessMessage(c, s, respond, parse).outcome.client.messages;
    assert p[..|c.messages|] == c.messages;
  }
}
