/** The chat session of `ChatInterface.jsx`: the transcript, the input box,
    the selected model and the stream flags, with the operations the component
    performs on them. Each React state update is an immediate assignment to a
    field of `ChatSession`. */
module ChatInterface {
  import opened JsText
  import opened ChatStream
  import opened Backend

  datatype Role = User | Assistant

  /** A transcript entry; its timestamp is not modelled. */
  datatype Message = Message(role: Role, content: string)

  /** The model ids the backend serves at `/ai/chat/{id}`. */
  datatype ModelId = Deepseek | Gemini | Ollama

  function ModelName(m: ModelId): string {
    match m
    case Deepseek => "deepseek"
    case Gemini => "gemini"
    case Ollama => "ollama"
  }

  /** The id a stored model tag stands for: the lower-cased tag is
      searched for "deepseek" first, then "gemini"; anything else is
      "ollama". */
  function NormalizeModel(tag: string): ModelId {
    var name := ToLower(tag);
    if Includes(name, "deepseek") then Deepseek
    else if Includes(name, "gemini") then Gemini
    else Ollama
  }

  /** The letter case of a tag never matters. */
  lemma NormalizeModelIgnoresCase(tag: string)
    ensures NormalizeModel(ToLower(tag)) == NormalizeModel(tag)
  {
    ToLowerIdempotent(tag);
  }

  /** A tag that mentions DeepSeek, in any letter case, selects deepseek,
      whatever else it mentions. */
  lemma NormalizeModelDeepseek(a: string, w: string, b: string)
    requires ToLower(w) == "deepseek"
    ensures NormalizeModel(a + w + b) == Deepseek
  {
    ToLowerAppend(a + w, b);
    ToLowerAppend(a, w);
    IncludesMiddle(ToLower(a), "deepseek", ToLower(b));
  }

  /** A tag that mentions Gemini, in any letter case, and not DeepSeek,
      selects gemini. */
  lemma NormalizeModelGemini(a: string, w: string, b: string)
    requires ToLower(w) == "gemini" && !Includes(ToLower(a + w + b), "deepseek")
    ensures NormalizeModel(a + w + b) == Gemini
  {
    ToLowerAppend(a + w, b);
    ToLowerAppend(a, w);
    IncludesMiddle(ToLower(a), "gemini", ToLower(b));
  }

  /** A tag that mentions neither name falls back to ollama, not to the
      session's initial gemini. */
  lemma NormalizeModelFallback(tag: string)
    requires forall i :: !OccursAt(ToLower(tag), "deepseek", i) && !OccursAt(ToLower(tag), "gemini", i)
    ensures NormalizeModel(tag) == Ollama
  {
  }

  /** Each model id's own name normalises back to it. */
  lemma NormalizeModelName(m: ModelId)
    ensures NormalizeModel(ModelName(m)) == m
  {
    match m
    case Deepseek => NormalizeNamedModel(ModelName(m));
    case Gemini => NormalizeNamedModel(ModelName(m));
    case Ollama => NormalizeNamedOllama(ModelName(m));
  }

  lemma NormalizeNamedModel(name: string)
    requires name == "deepseek" || name == "gemini"
    ensures NormalizeModel(name) == if name == "deepseek" then Deepseek else Gemini
  {
    ToLowerKeepsLower(name);
    IncludesMiddle([], name, []);
    assert [] + name + [] == name;
    assert |name| < 8 ==> !Includes(name, "deepseek");
  }

  lemma NormalizeNamedOllama(name: string)
    requires name == "ollama"
    ensures NormalizeModel(name) == Ollama
  {
    ToLowerKeepsLower(name);
    assert !Includes(name, "deepseek");
    assert name[0] != 'g';
    assert !Includes(name[1..], "gemini");
  }

  /** Appends `text` to the content of the last entry; an empty transcript is
      left as it is. */
  function AppendToLast(msgs: seq<Message>, text: string): seq<Message> {
    if msgs == [] then msgs
    else
      var last := msgs[|msgs| - 1];
      msgs[..|msgs| - 1] + [Message(last.role, last.content + text)]
  }

  /** Only the content of the last entry changes, and it changes by `text`
      at its end: the length, every role and every earlier entry are kept. */
  lemma AppendToLastSpec(msgs: seq<Message>, text: string)
    ensures var r := AppendToLast(msgs, text);
            && |r| == |msgs|
            && (forall i :: 0 <= i < |msgs| ==> r[i].role == msgs[i].role)
            && (forall i :: 0 <= i < |msgs| - 1 ==> r[i] == msgs[i])
            && (|msgs| > 0 ==> r[|msgs| - 1].content == msgs[|msgs| - 1].content + text)
  {
  }

  /** Appending `a` then `b` is appending `a + b`; appending nothing changes
      nothing. */
  lemma AppendToLastCompose(msgs: seq<Message>, a: string, b: string)
    ensures AppendToLast(AppendToLast(msgs, a), b) == AppendToLast(msgs, a + b)
    ensures AppendToLast(msgs, "") == msgs
  {
    if msgs != [] {
      var last := msgs[|msgs| - 1];
      assert (last.content + a) + b == last.content + (a + b);
      assert last.content + "" == last.content;
    }
  }

  const ErrorMarker := "\n[Erro na conexão]"

  /** The catch block's update as the component writes it: the marker is
      added to the content of the entry at index length - 1, unchecked. On an
      empty transcript that entry is undefined and the update throws a
      TypeError, shown here as None. */
  function MarkErrorAsWritten(msgs: seq<Message>): (r: Option<seq<Message>>)
    ensures r.None? <==> msgs == []
    ensures r.Some? ==> |r.value| == |msgs| && r.value[|msgs| - 1].content == msgs[|msgs| - 1].content + ErrorMarker
  {
    if msgs == [] then None
    else
      AppendToLastSpec(msgs, ErrorMarker);
      Some(AppendToLast(msgs, ErrorMarker))
  }

  /** The error update with the guard the token path has: the marker goes on
      the last entry, and an empty transcript is left as it is. */
  function MarkError(msgs: seq<Message>): (r: seq<Message>)
    ensures MarkErrorAsWritten(msgs).Some? ==> r == MarkErrorAsWritten(msgs).value
    ensures msgs == [] ==> r == []
  {
    AppendToLast(msgs, ErrorMarker)
  }

  /** The answer stored for question `i`; an index past the end reads as
      undefined. */
  function AnswerAt(responses: seq<Option<string>>, i: nat): Option<string> {
    if i < |responses| then responses[i] else None
  }

  /** The entries one stored question becomes: the question, then its answer
      when the answer is truthy. */
  function Entries(question: string, answer: Option<string>): seq<Message> {
    [Message(User, question)] + if Truthy(answer) then [Message(Assistant, answer.value)] else []
  }

  /** The transcript of a stored conversation, question by question. */
  function Transcript(questions: seq<string>, responses: seq<Option<string>>): seq<Message>
    decreases |questions|
  {
    if questions == [] then []
    else
      var n := |questions| - 1;
      Transcript(questions[..n], responses) + Entries(questions[n], AnswerAt(responses, n))
  }

  /** The contents of the entries in `role`, in order. */
  function Contents(role: Role, msgs: seq<Message>): seq<string>
    decreases |msgs|
  {
    if msgs == [] then []
    else
      var last := msgs[|msgs| - 1];
      Contents(role, msgs[..|msgs| - 1]) + if last.role == role then [last.content] else []
  }

  lemma {:induction false} ContentsAppend(role: Role, a: seq<Message>, b: seq<Message>)
    ensures Contents(role, a + b) == Contents(role, a) + Contents(role, b)
    decreases |b|
  {
    if b == [] {
      assert a + b == a;
    } else {
      assert (a + b)[..|a + b| - 1] == a + b[..|b| - 1];
      ContentsAppend(role, a, b[..|b| - 1]);
    }
  }

  /** The truthy answers among the first `n` stored ones, in order; a falsy
      or missing answer contributes nothing. */
  function TruthyAnswers(responses: seq<Option<string>>, n: nat): seq<string> {
    if n == 0 then []
    else
      var answer := AnswerAt(responses, n - 1);
      TruthyAnswers(responses, n - 1) + if Truthy(answer) then [answer.value] else []
  }

  /** One stored question contributes exactly itself as a user entry, and
      its answer as an assistant entry exactly when the answer is truthy. */
  lemma EntriesContents(question: string, answer: Option<string>)
    ensures Contents(User, Entries(question, answer)) == [question]
    ensures Contents(Assistant, Entries(question, answer))
         == if Truthy(answer) then [answer.value] else []
  {
    var e := Entries(question, answer);
    var head := [Message(User, question)];
    assert Contents(User, head) == [question] && Contents(Assistant, head) == [] by {
      assert head[..0] == [];
    }
    if |e| == 2 {
      assert e[..|e| - 1] == head;
    } else {
      assert e == head;
    }
  }

  /** Hydration keeps every question, in order, as a user entry. */
  lemma {:induction false} TranscriptQuestions(questions: seq<string>, responses: seq<Option<string>>)
    ensures Contents(User, Transcript(questions, responses)) == questions
    decreases |questions|
  {
    if questions != [] {
      var n := |questions| - 1;
      var prefix := Transcript(questions[..n], responses);
      var e := Entries(questions[n], AnswerAt(responses, n));
      calc {
        Contents(User, Transcript(questions, responses));
        Contents(User, prefix + e);
        { ContentsAppend(User, prefix, e); }
        Contents(User, prefix) + Contents(User, e);
        { TranscriptQuestions(questions[..n], responses);
          EntriesContents(questions[n], AnswerAt(responses, n)); }
        questions[..n] + [questions[n]];
        { assert questions[..n] + [questions[n]] == questions; }
        questions;
      }
    }
  }

  /** Hydration shows exactly the truthy answers of the stored questions, in
      order, as assistant entries: a falsy answer (undefined, null or empty)
      is dropped, and so is every answer past the last question. */
  lemma {:induction false} TranscriptAnswers(questions: seq<string>, responses: seq<Option<string>>)
    ensures Contents(Assistant, Transcript(questions, responses)) == TruthyAnswers(responses, |questions|)
    decreases |questions|
  {
    if questions != [] {
      var n := |questions| - 1;
      var prefix := Transcript(questions[..n], responses);
      var e := Entries(questions[n], AnswerAt(responses, n));
      calc {
        Contents(Assistant, Transcript(questions, responses));
        Contents(Assistant, prefix + e);
        { ContentsAppend(Assistant, prefix, e); }
        Contents(Assistant, prefix) + Contents(Assistant, e);
        { TranscriptAnswers(questions[..n], responses);
          EntriesContents(questions[n], AnswerAt(responses, n)); }
        TruthyAnswers(responses, |questions|);
      }
    }
  }

  /** No assistant entry comes first, and each one directly follows a user
      entry. */
  predicate AnswersFollowQuestions(t: seq<Message>) {
    forall j :: 0 <= j < |t| && t[j].role == Assistant ==> j > 0 && t[j - 1].role == User
  }

  /** Hydration puts each answer directly after its question: never two
      assistant entries in a row, nor an assistant entry first. */
  lemma {:induction false} TranscriptAlternates(questions: seq<string>, responses: seq<Option<string>>)
    ensures AnswersFollowQuestions(Transcript(questions, responses))
    decreases |questions|
  {
    if questions != [] {
      var n := |questions| - 1;
      var prefix := Transcript(questions[..n], responses);
      var e := Entries(questions[n], AnswerAt(responses, n));
      TranscriptAlternates(questions[..n], responses);
      var t := prefix + e;
      forall j | 0 <= j < |t| && t[j].role == Assistant
        ensures j > 0 && t[j - 1].role == User
      {
        if j >= |prefix| {
          assert t[j] == e[j - |prefix|];
          assert e[0].role == User;
          assert j == |prefix| + 1;
          assert t[j - 1] == e[0];
        } else {
          assert t[j] == prefix[j];
          assert prefix[j].role == Assistant;
          assert t[j - 1] == prefix[j - 1];
        }
      }
      assert AnswersFollowQuestions(t);
    }
  }

  /** A hydrated transcript opens with the first stored question. */
  lemma {:induction false} TranscriptOpensWithFirstQuestion(questions: seq<string>, responses: seq<Option<string>>)
    requires questions != []
    ensures var t := Transcript(questions, responses);
            t != [] && t[0] == Message(User, questions[0])
    decreases |questions|
  {
    var n := |questions| - 1;
    if n > 0 {
      TranscriptOpensWithFirstQuestion(questions[..n], responses);
    }
  }

  /** Answers stored past the last question are ignored. */
  lemma {:induction false} TranscriptIgnoresExtraAnswers(questions: seq<string>, responses: seq<Option<string>>, n: nat)
    requires |questions| <= n <= |responses|
    ensures Transcript(questions, responses) == Transcript(questions, responses[..n])
    decreases |questions|
  {
    if questions != [] {
      var m := |questions| - 1;
      TranscriptIgnoresExtraAnswers(questions[..m], responses, n);
      assert AnswerAt(responses, m) == AnswerAt(responses[..n], m);
    }
  }

  /** The stored conversation ["A", "B"] answered ["R1"] hydrates to user A,
      assistant R1, user B; an empty answer gives no assistant entry. */
  lemma TranscriptExample()
    ensures Transcript(["A", "B"], [Some("R1")])
         == [Message(User, "A"), Message(Assistant, "R1"), Message(User, "B")]
    ensures Transcript(["A"], [Some("")]) == [Message(User, "A")]
  {
    assert ["A", "B"][..1] == ["A"];
    assert ["A"][..0] == [];
  }

  /** The `forEach` that builds the transcript of a stored conversation. */
  method FormatConversation(questions: seq<string>, responses: seq<Option<string>>)
    returns (formatted: seq<Message>)
    ensures formatted == Transcript(questions, responses)
  {
    formatted := [];
    for i := 0 to |questions|
      invariant formatted == Transcript(questions[..i], responses)
    {
      assert questions[..i + 1][..i] == questions[..i];
      formatted := formatted + [Message(User, questions[i])];
      var answer := AnswerAt(responses, i);
      if Truthy(answer) {
        formatted := formatted + [Message(Assistant, answer.value)];
      }
    }
    assert questions[..|questions|] == questions;
  }

  /** Handling line `i` after the lines before it, which did not end the
      stream, appends that line's text; the end line appends nothing. */
  lemma LineAppends(m0: seq<Message>, lines: seq<string>, i: nat)
    requires i < |lines| && !Terminated(lines[..i])
    ensures Terminated(lines[..i + 1]) == ParseLine(lines[i]).Done?
    ensures var before := AppendToLast(m0, Concat(Fragments(lines[..i])));
            var after := AppendToLast(m0, Concat(Fragments(lines[..i + 1])));
            && (ParseLine(lines[i]).Done? ==> after == before)
            && (!ParseLine(lines[i]).Done? ==> after == AppendToLast(before, LineText(lines[i])))
  {
    var handled := Concat(Fragments(lines[..i]));
    assert lines[..i + 1] == lines[..i] + [lines[i]];
    FragmentsStep(lines[..i], lines[i]);
    AppendToLastCompose(m0, handled, LineText(lines[i]));
    if ParseLine(lines[i]).Done? {
      assert handled + LineText(lines[i]) == handled;
    }
  }

  /** Reading one more chunk `c` after the text `x` appends to the
      transcript exactly what reading `x + c` at once appends after `x`. */
  lemma ChunkAppends(m0: seq<Message>, x: string, c: string)
    requires !Terminated(SplitBuffer(x).lines)
    ensures var s := SplitBuffer(x);
            var n := SplitBuffer(s.rest + c);
            var w := SplitBuffer(x + c);
            && w.rest == n.rest && Terminated(w.lines) == Terminated(n.lines)
            && AppendToLast(AppendToLast(m0, Concat(Fragments(s.lines))), Concat(Fragments(n.lines)))
               == AppendToLast(m0, Concat(Fragments(w.lines)))
  {
    var s := SplitBuffer(x);
    var n := SplitBuffer(s.rest + c);
    ChunkStep(x, c);
    AppendToLastCompose(m0, Concat(Fragments(s.lines)), Concat(Fragments(n.lines)));
  }

  /** The text of the first `k + 1` chunks is that of the first `k` followed
      by chunk `k`. */
  lemma ConcatPrefix(chunks: seq<string>, k: nat)
    requires k < |chunks|
    ensures Concat(chunks[..k + 1]) == Concat(chunks[..k]) + chunks[k]
  {
    assert chunks[..k + 1][..k] == chunks[..k];
  }

  /** Once the chunks read so far have ended the stream, the chunks left
      unread change nothing. */
  lemma UnreadChunks(chunks: seq<string>, k: nat)
    requires k <= |chunks| && Terminated(SplitBuffer(Concat(chunks[..k])).lines)
    ensures var w := SplitBuffer(Concat(chunks)).lines;
            Terminated(w) && Fragments(w) == Fragments(SplitBuffer(Concat(chunks[..k])).lines)
  {
    assert chunks[..k] + chunks[k..] == chunks;
    ConcatAppend(chunks[..k], chunks[k..]);
    StreamStopped(Concat(chunks[..k]), Concat(chunks[k..]));
  }

  /** The request `sendMessage` opens: `/ai/chat/{model}?message=...`. */
  datatype ChatRequest = ChatRequest(model: ModelId, message: string)

  /** How the reader's loop ends when no line ends the stream: the reader
      reports done, or a read (or the request itself) fails, either because the
      controller aborted it or for any other reason. */
  datatype Ending = Ended | Failed(aborted: bool)

  class ChatSession {
    var messages: seq<Message>
    var isStreaming: bool
    var input: string
    var selectedModel: ModelId
    /** `abortControllerRef.current` is set. */
    var hasController: bool

    /** A controller exists exactly while a stream is active. */
    ghost predicate Valid()
      reads this
    {
      hasController == isStreaming
    }

    constructor()
      ensures Valid()
      ensures messages == [] && input == "" && selectedModel == Gemini
      ensures !isStreaming && !hasController
    {
      messages := [];
      input := "";
      selectedModel := Gemini;
      isStreaming := false;
      hasController := false;
    }

    /** The text area's `onChange`. */
    method SetInput(text: string)
      modifies this`input
      ensures input == text
    {
      input := text;
    }

    /** The model selector's `onModelChange`. */
    method SelectModel(m: ModelId)
      modifies this`selectedModel
      ensures selectedModel == m
    {
      selectedModel := m;
    }

    /** The body of the effect that loads a conversation picked in the
        history. The effect runs only when the picked conversation changes, so
        picking the conversation already loaded again does not call it. */
    method Hydrate(conversation: Option<Conversation>)
      requires Valid()
      modifies this`messages, this`selectedModel
      ensures Valid()
      ensures conversation.None? ==> messages == old(messages) && selectedModel == old(selectedModel)
      ensures conversation.Some? ==>
        var c := conversation.value;
        && messages == (if c.messages.Some? && c.responses.Some?
                        then Transcript(c.messages.value, c.responses.value) else [])
        && selectedModel == (if Truthy(c.modelName) then NormalizeModel(c.modelName.value)
                             else old(selectedModel))
    {
      if conversation.Some? {
        var c := conversation.value;
        var formatted := [];
        if c.messages.Some? && c.responses.Some? {
          formatted := FormatConversation(c.messages.value, c.responses.value);
        }
        messages := formatted;
        if Truthy(c.modelName) {
          selectedModel := NormalizeModel(c.modelName.value);
        }
      }
    }

    /** `stopStreaming`: aborts and drops the controller, if any, and leaves
        the idle state whatever the state was. */
    method Stop()
      requires Valid()
      modifies this`isStreaming, this`hasController
      ensures Valid() && !isStreaming && !hasController
    {
      hasController := false;
      isStreaming := false;
    }

    /** `handleClearChat`. */
    method Clear()
      requires Valid()
      modifies this`messages, this`input, this`isStreaming, this`hasController
      ensures Valid() && !isStreaming && !hasController
      ensures messages == [] && input == ""
    {
      Stop();
      messages := [];
      input := "";
    }

    /** The synchronous start of `sendMessage`: nothing happens when the
        trimmed input is empty or a stream is active; otherwise the user entry
        and an empty assistant entry are appended, the input is cleared, the
        session streams and a request for the selected model is opened. */
    method SendMessage() returns (request: Option<ChatRequest>)
      requires Valid()
      modifies this`messages, this`input, this`isStreaming, this`hasController
      ensures Valid()
      ensures request.None? <==> Trim(old(input)) == "" || old(isStreaming)
      ensures request.None? ==>
        messages == old(messages) && input == old(input)
        && isStreaming == old(isStreaming) && hasController == old(hasController)
      ensures request.Some? ==>
        && request.value == ChatRequest(selectedModel, Trim(old(input)))
        && messages == old(messages) + [Message(User, Trim(old(input))), Message(Assistant, "")]
        && input == "" && isStreaming && hasController
    {
      var text := Trim(input);
      if text == "" || isStreaming {
        return None;
      }
      messages := messages + [Message(User, text)];
      input := "";
      isStreaming := true;
      messages := messages + [Message(Assistant, "")];
      hasController := true;
      request := Some(ChatRequest(selectedModel, text));
    }

    /** One complete line of the stream: the end line stops the stream, a
        data line appends its text to the last entry, and any other line is
        skipped. */
    method HandleLine(line: string) returns (done: bool)
      requires Valid()
      modifies this`messages, this`isStreaming, this`hasController
      ensures Valid()
      ensures done == ParseLine(line).Done?
      ensures done ==> messages == old(messages) && !isStreaming && !hasController
      ensures !done ==>
        && messages == AppendToLast(old(messages), LineText(line))
        && isStreaming == old(isStreaming) && hasController == old(hasController)
    {
      done := false;
      match ParseLine(line) {
        case Skip =>
          AppendToLastCompose(messages, "", "");
        case Done =>
          Stop();
          done := true;
        case Token(t) =>
          messages := AppendToLast(messages, TokenText(t));
      }
    }

    /** The complete lines of one read, handled in order until one ends the
        stream. */
    method HandleLines(lines: seq<string>) returns (done: bool)
      requires Valid()
      modifies this`messages, this`isStreaming, this`hasController
      ensures Valid()
      ensures done == Terminated(lines)
      ensures messages == AppendToLast(old(messages), Concat(Fragments(lines)))
      ensures done ==> !isStreaming && !hasController
      ensures !done ==> isStreaming == old(isStreaming) && hasController == old(hasController)
    {
      done := false;
      var i := 0;
      assert lines[..0] == [];
      AppendToLastCompose(messages, "", "");
      while i < |lines| && !done
        invariant 0 <= i <= |lines|
        invariant Valid()
        invariant done == Terminated(lines[..i])
        invariant messages == AppendToLast(old(messages), Concat(Fragments(lines[..i])))
        invariant done ==> !isStreaming && !hasController
        invariant !done ==> isStreaming == old(isStreaming) && hasController == old(hasController)
      {
        LineAppends(old(messages), lines, i);
        done := HandleLine(lines[i]);
        i := i + 1;
      }
      FragmentsStopped(lines, i);
    }

    /** The body of the read loop for one decoded chunk: the complete lines of
        the buffer followed by the chunk are handled; the unterminated tail is
        returned for the next read. */
    method FeedChunk(buffer: string, chunk: string) returns (rest: string, done: bool)
      requires Valid()
      modifies this`messages, this`isStreaming, this`hasController
      ensures Valid()
      ensures var s := SplitBuffer(buffer + chunk);
              && rest == s.rest && done == Terminated(s.lines)
              && messages == AppendToLast(old(messages), Concat(Fragments(s.lines)))
      ensures done ==> !isStreaming && !hasController
      ensures !done ==> isStreaming == old(isStreaming) && hasController == old(hasController)
    {
      var split := SplitBuffer(buffer + chunk);
      rest := split.rest;
      done := HandleLines(split.lines);
    }

    /** The catch block of `sendMessage`: a failure other than an abort marks
        the last entry with the connection error. It uses the guarded
        `MarkError`, which leaves an empty transcript as it is; the component
        as written throws there (`MarkErrorAsWritten`). */
    method OnError(aborted: bool)
      modifies this`messages
      ensures messages == if aborted then old(messages) else MarkError(old(messages))
    {
      if !aborted {
        messages := MarkError(messages);
      }
    }

    /** The read loop of `sendMessage`: the decoded chunks are fed in order
        until a line ends the stream or the reader reports done. What is
        appended depends only on the concatenation of the chunks, never on
        where one chunk ends and the next begins; a tail left without '\n'
        is never handled. */
    method ReadChunks(chunks: seq<string>) returns (terminated: bool)
      requires Valid()
      modifies this`messages, this`isStreaming, this`hasController
      ensures Valid()
      ensures var lines := SplitBuffer(Concat(chunks)).lines;
              && terminated == Terminated(lines)
              && messages == AppendToLast(old(messages), Concat(Fragments(lines)))
      ensures terminated ==> !isStreaming && !hasController
      ensures !terminated ==> isStreaming == old(isStreaming) && hasController == old(hasController)
    {
      var buffer := "";
      var k := 0;
      terminated := false;
      ghost var streamed := "";
      assert chunks[..0] == [];
      AppendToLastCompose(messages, "", "");
      while k < |chunks| && !terminated
        invariant 0 <= k <= |chunks|
        invariant Valid()
        invariant streamed == Concat(chunks[..k])
        invariant buffer == SplitBuffer(streamed).rest
        invariant terminated == Terminated(SplitBuffer(streamed).lines)
        invariant messages == AppendToLast(old(messages), Concat(Fragments(SplitBuffer(streamed).lines)))
        invariant terminated ==> !isStreaming && !hasController
        invariant !terminated ==> isStreaming == old(isStreaming) && hasController == old(hasController)
      {
        ChunkAppends(old(messages), streamed, chunks[k]);
        ConcatPrefix(chunks, k);
        buffer, terminated := FeedChunk(buffer, chunks[k]);
        streamed := streamed + chunks[k];
        k := k + 1;
      }
      if terminated {
        UnreadChunks(chunks, k);
      } else {
        assert chunks[..k] == chunks;
      }
    }

    /** The read loop with the catch and finally blocks of `sendMessage`: a
        stream that ends without its end line because of a failure other
        than an abort is marked with the connection error, and every path
        ends idle. The marker goes through the guarded `MarkError`; the
        component as written throws on an empty transcript instead. */
    method Consume(chunks: seq<string>, ending: Ending) returns (terminated: bool)
      requires Valid()
      modifies this`messages, this`isStreaming, this`hasController
      ensures Valid() && !isStreaming && !hasController
      ensures var lines := SplitBuffer(Concat(chunks)).lines;
              var streamed := AppendToLast(old(messages), Concat(Fragments(lines)));
              && terminated == Terminated(lines)
              && messages == if !terminated && ending == Failed(false) then MarkError(streamed) else streamed
    {
      terminated := ReadChunks(chunks);
      if !terminated && ending.Failed? {
        OnError(ending.aborted);
      }
      isStreaming := false;
      hasController := false;
    }
  }

  /** The interleaving that reaches the error update with an empty transcript:
      a message is sent, a stored conversation without arrays is picked in the
      history while the reply streams (nothing disables the history), and the
      connection then fails. The update as written throws there; the guarded
      one leaves the transcript empty. */
  method EmptyTranscriptOnError() returns (asWritten: Option<seq<Message>>, corrected: seq<Message>)
    ensures asWritten == None && corrected == []
  {
    var session := new ChatSession();
    session.SetInput("Recife");
    var request := session.SendMessage();
    session.Hydrate(Some(Conversation(None, None, None)));
    assert session.messages == [] && session.isStreaming;
    asWritten := MarkErrorAsWritten(session.messages);
    var terminated := session.Consume([], Failed(false));
    corrected := session.messages;
  }
}
