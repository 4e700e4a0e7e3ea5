/** Prompt assembly and answer generation around the language model, the
    retrieval-query rewrite, and the formatting of retrieved passages. The
    model server is an input: a function from the request it is sent to what
    it answers (a reply, a stream of chunks, or an exception). */
module Utils {
  import opened Common
  import opened PythonOps

  /** A history entry as the helpers read it: a dictionary in which `role`
      and `content` may each be missing. */
  datatype HistoryEntry = HistoryEntry(role: Option<string>, content: Option<string>)

  /** `msg.get("role") == "user"`. */
  predicate IsUser(e: HistoryEntry)
  {
    e.role == Some("user")
  }

  /** `msg.get("content", "")`. */
  function ContentOf(e: HistoryEntry): string
  {
    match e.content
    case None => ""
    case Some(c) => c
  }

  const HistoryHeader: string := "\n\nRiwayat Percakapan Terkait:\n"
  const Fallback: string := "Error: Sistem sedang gangguan."
  const DefaultModel: string := "llama3:8b"
  const Persona: string := "Anda adalah AXEL, asisten dokumentasi API Telkom. Jawab pertanyaan dengan SINGKAT, PADAT, langsung ke inti. Hindari salam pembuka, penutup, atau kata-kata tidak perlu. Fokus pada informasi teknis yang diminta."

  /** The line one history entry contributes to the prompt. */
  function HistoryLine(e: HistoryEntry): string
  {
    (if IsUser(e) then "User" else "Assistant") + ": " + ContentOf(e) + "\n"
  }

  /** The lines of a history, one per entry, in order. */
  function HistoryLines(history: seq<HistoryEntry>): string
  {
    if history == [] then ""
    else HistoryLines(history[..|history| - 1]) + HistoryLine(history[|history| - 1])
  }

  /** The rendering of a history is the rendering of its parts, one after the
      other: each entry's line stands in the prompt in the entry's position. */
  lemma {:induction false} HistoryLinesConcat(h1: seq<HistoryEntry>, h2: seq<HistoryEntry>)
    ensures HistoryLines(h1 + h2) == HistoryLines(h1) + HistoryLines(h2)
    decreases |h2|
  {
    if h2 != [] {
      var h2' := h2[..|h2| - 1];
      assert (h1 + h2)[..|h1 + h2| - 1] == h1 + h2';
      HistoryLinesConcat(h1, h2');
    } else {
      assert h1 + h2 == h1;
    }
  }

  /** The history block of the prompt: nothing for a missing or empty
      history, otherwise the header and one role-labelled line per entry. */
  function HistoryBlock(history: Option<seq<HistoryEntry>>): string
  {
    if history.None? || history.value == [] then "" else HistoryHeader + HistoryLines(history.value)
  }

  /** Rendering one more entry of a history adds that entry's line. */
  lemma HistoryLinesStep(h: seq<HistoryEntry>, i: nat)
    requires i < |h|
    ensures HistoryLines(h[..i + 1]) == HistoryLines(h[..i]) + HistoryLine(h[i])
  {
    assert h[..i + 1][..i] == h[..i];
  }

  /** Builds the history block the way both generators do, by accumulating
      one line per entry. */
  method BuildHistoryContext(history: Option<seq<HistoryEntry>>) returns (block: string)
    ensures block == HistoryBlock(history)
    ensures history.Some? && history.value != [] ==>
      block[..|HistoryHeader|] == HistoryHeader && |block| > |HistoryHeader|
  {
    block := "";
    if history.Some? && history.value != [] {
      var h := history.value;
      block := HistoryHeader;
      for i := 0 to |h|
        invariant block == HistoryHeader + HistoryLines(h[..i])
      {
        HistoryLinesStep(h, i);
        block := block + HistoryLine(h[i]);
      }
      assert h[..|h|] == h;
      HistoryLinesStep(h, |h| - 1);
      assert |HistoryLine(h[|h| - 1])| > 0;
    }
  }

  const PromptHead: string := "Berdasarkan informasi dokumentasi berikut:\n\n"
  const QuestionLead: string := "\n\nJawab pertanyaan ini dengan singkat dan langsung ke intinya: "
  const PromptTail: string := "\n\nJawaban:"

  /** The prompt template shared by both generators. */
  function Prompt(context: string, historyBlock: string, question: string): string
  {
    PromptHead + context + "\n" + historyBlock + QuestionLead + question + PromptTail
  }

  /** The prompt holds the context, the history block and the question
      verbatim, each at a position fixed by the lengths of what precedes it,
      so the question the model is shown is exactly the caller's. */
  lemma PromptEmbedsVerbatim(context: string, historyBlock: string, question: string)
    ensures var p := Prompt(context, historyBlock, question);
      var c0 := |PromptHead|;
      var h0 := c0 + |context| + 1;
      var q0 := h0 + |historyBlock| + |QuestionLead|;
      |p| == q0 + |question| + |PromptTail|
      && p[c0..c0 + |context|] == context
      && p[h0..h0 + |historyBlock|] == historyBlock
      && p[q0..q0 + |question|] == question
  {
  }

  /** Two prompts with the same context and history are equal only when the
      questions are. */
  lemma PromptDeterminesQuestion(context: string, historyBlock: string, q1: string, q2: string)
    requires Prompt(context, historyBlock, q1) == Prompt(context, historyBlock, q2)
    ensures q1 == q2
  {
    PromptEmbedsVerbatim(context, historyBlock, q1);
    PromptEmbedsVerbatim(context, historyBlock, q2);
  }

  /** What is sent to the model server: the model name, the prompt, the
      streaming flag and the sampling options (the persona travels inside the
      options, under "system", as in the source). */
  datatype GenerateRequest = GenerateRequest(
    model: string,
    prompt: string,
    stream: bool,
    temperature: real,
    topP: real,
    numCtx: int,
    system: string)

  function Request(prompt: string, stream: bool): GenerateRequest
  {
    GenerateRequest(DefaultModel, prompt, stream, 0.1, 0.9, 4096, Persona)
  }

  /** The outcome of a non-streaming call: the reply's `response` field (which
      may be missing) or an exception. */
  datatype Reply = Returned(response: Option<string>) | Raised

  /** One streamed chunk, whose `response` field may be missing. */
  datatype StreamChunk = StreamChunk(response: Option<string>)

  /** A stream: the chunks delivered, then either the normal end or an
      exception (a failure of the call itself delivers no chunks). */
  datatype ChunkStream = ChunkStream(chunks: seq<StreamChunk>, raises: bool)

  /** The request a generator sends for a context, question and history. */
  function RequestFor(context: string, question: string, history: Option<seq<HistoryEntry>>, stream: bool): GenerateRequest
  {
    Request(Prompt(context, HistoryBlock(history), question), stream)
  }

  /** Non-streaming generation, failing closed: the stripped reply, or the
      fixed degraded-service message when the call raises or the reply has no
      `response` field. */
  method GenerateResponse(context: string, question: string, history: Option<seq<HistoryEntry>>,
                          llm: GenerateRequest -> Reply)
    returns (answer: string)
    ensures var reply := llm(RequestFor(context, question, history, false));
      if reply.Returned? && reply.response.Some? then answer == Strip(reply.response.value)
      else answer == Fallback
    ensures answer == Fallback || answer == [] || (!IsSpace(answer[0]) && !IsSpace(answer[|answer| - 1]))
  {
    var historyContext := BuildHistoryContext(history);
    var prompt := Prompt(context, historyContext, question);
    var reply := llm(Request(prompt, false));
    if reply.Returned? && reply.response.Some? {
      answer := Strip(reply.response.value);
    } else {
      answer := Fallback;
    }
  }

  /** The `response` fields of the chunks that have one, in order. */
  function Responses(chunks: seq<StreamChunk>): seq<string>
  {
    if chunks == [] then []
    else
      var last := chunks[|chunks| - 1];
      Responses(chunks[..|chunks| - 1]) + (if last.response.Some? then [last.response.value] else [])
  }

  /** The fragments of two runs of chunks, one after the other, are the
      fragments of the first run followed by those of the second: together
      with `ResponsesOfOne` this fixes the order of the fragments. */
  lemma {:induction false} ResponsesConcat(a: seq<StreamChunk>, b: seq<StreamChunk>)
    ensures Responses(a + b) == Responses(a) + Responses(b)
    decreases |b|
  {
    if b == [] {
      assert a + b == a;
    } else {
      var b' := b[..|b| - 1];
      assert (a + b)[..|a + b| - 1] == a + b';
      ResponsesConcat(a, b');
    }
  }

  /** A single chunk yields its `response` when it has one, and nothing otherwise. */
  lemma ResponsesOfOne(c: StreamChunk)
    ensures Responses([c]) == if c.response.Some? then [c.response.value] else []
  {
    assert [c][..0] == [];
  }

  /** Each chunk yields at most one fragment, every chunk with a `response`
      yields it, and every fragment comes from such a chunk. */
  lemma {:induction false} ResponsesFromChunks(chunks: seq<StreamChunk>)
    ensures |Responses(chunks)| <= |chunks|
    ensures (forall c :: c in chunks ==> c.response.Some?) ==> |Responses(chunks)| == |chunks|
    ensures forall c :: c in chunks && c.response.Some? ==> c.response.value in Responses(chunks)
    ensures forall r :: r in Responses(chunks) ==> StreamChunk(Some(r)) in chunks
  {
    if chunks != [] {
      var init := chunks[..|chunks| - 1];
      ResponsesFromChunks(init);
      assert chunks == init + [chunks[|chunks| - 1]];
    }
  }

  /** Streaming generation, failing closed: yields the `response` of every
      chunk that has one, in order, and after an exception the
      degraded-service message once; the fragments are returned as the list
      the generator would yield. */
  method GenerateStreamResponse(context: string, question: string, history: Option<seq<HistoryEntry>>,
                                llm: GenerateRequest -> ChunkStream)
    returns (yielded: seq<string>)
    ensures var s := llm(RequestFor(context, question, history, true));
      yielded == Responses(s.chunks) + (if s.raises then [Fallback] else [])
    ensures !llm(RequestFor(context, question, history, true)).raises ==> |yielded| <= |llm(RequestFor(context, question, history, true)).chunks|
  {
    var historyContext := BuildHistoryContext(history);
    var prompt := Prompt(context, historyContext, question);
    var stream := llm(Request(prompt, true));
    yielded := [];
    for i := 0 to |stream.chunks|
      invariant yielded == Responses(stream.chunks[..i])
    {
      assert stream.chunks[..i + 1][..i] == stream.chunks[..i];
      if stream.chunks[i].response.Some? {
        yielded := yielded + [stream.chunks[i].response.value];
      }
    }
    assert stream.chunks[..|stream.chunks|] == stream.chunks;
    ResponsesFromChunks(stream.chunks);
    if stream.raises {
      yielded := yielded + [Fallback];
    }
  }

  /** The user contents among the given entries, in order (the list
      comprehension of `build_enhanced_query`). */
  function UserContents(entries: seq<HistoryEntry>): seq<string>
  {
    if entries == [] then []
    else (if IsUser(entries[0]) then [ContentOf(entries[0])] else []) + UserContents(entries[1..])
  }

  /** The user contents among the last two entries of a non-empty history. */
  lemma LastTwoUserContents(history: seq<HistoryEntry>)
    requires history != []
    ensures var recent := UserContents(SliceFrom(history, -2));
      if |history| >= 2 && IsUser(history[|history| - 2]) && IsUser(history[|history| - 1])
      then recent == [ContentOf(history[|history| - 2]), ContentOf(history[|history| - 1])]
      else |recent| <= 1
  {
    var last2 := SliceFrom(history, -2);
    if |history| == 1 {
      assert last2 == history == [history[0]];
      assert last2[1..] == [];
    } else {
      var a, b := history[|history| - 2], history[|history| - 1];
      assert last2 == [a, b];
      assert last2[1..] == [b];
      assert UserContents([b]) == (if IsUser(b) then [ContentOf(b)] else []) + UserContents([]);
      assert UserContents(last2) == (if IsUser(a) then [ContentOf(a)] else []) + UserContents([b]);
    }
  }

  /** Rewrites a question for retrieval: only the last two history entries are
      read, and when both are user messages the older one's content is
      appended as a bracketed context; otherwise the question is unchanged. */
  function BuildEnhancedQuery(question: string, history: seq<HistoryEntry>): (q: string)
    ensures |history| >= 2 && IsUser(history[|history| - 2]) && IsUser(history[|history| - 1]) ==>
      q == question + " [Konteks: " + ContentOf(history[|history| - 2]) + "]"
    ensures !(|history| >= 2 && IsUser(history[|history| - 2]) && IsUser(history[|history| - 1])) ==>
      q == question
  {
    if history == [] then question
    else
      LastTwoUserContents(history);
      var recent := UserContents(SliceFrom(history, -2));
      if |recent| > 1 then question + " [Konteks: " + Join(" ", recent[..|recent| - 1]) + "]"
      else question
  }

  /** The rewrite always starts with the question itself. */
  lemma EnhancedQueryExtendsQuestion(question: string, history: seq<HistoryEntry>)
    ensures var q := BuildEnhancedQuery(question, history);
      |question| <= |q| && q[..|question|] == question
  {
  }

  /** Entries older than the last two never matter. */
  lemma EnhancedQueryReadsLastTwo(question: string, older: seq<HistoryEntry>, recent: seq<HistoryEntry>)
    requires |recent| >= 2
    ensures BuildEnhancedQuery(question, older + recent) == BuildEnhancedQuery(question, recent)
  {
    var h := older + recent;
    assert h[|h| - 2] == recent[|recent| - 2] && h[|h| - 1] == recent[|recent| - 1];
  }

  /** Assistant entries contribute no text: two histories with the same roles
      and the same user contents give the same query. */
  lemma EnhancedQueryIgnoresAssistantText(question: string, h1: seq<HistoryEntry>, h2: seq<HistoryEntry>)
    requires |h1| == |h2|
    requires forall i :: 0 <= i < |h1| ==> h1[i].role == h2[i].role
    requires forall i :: 0 <= i < |h1| && IsUser(h1[i]) ==> h1[i].content == h2[i].content
    ensures BuildEnhancedQuery(question, h1) == BuildEnhancedQuery(question, h2)
  {
    if |h1| >= 2 {
      assert IsUser(h1[|h1| - 2]) == IsUser(h2[|h2| - 2]);
      assert IsUser(h1[|h1| - 1]) == IsUser(h2[|h2| - 1]);
    }
  }

  /** A passage as the vector store returns it. */
  datatype SearchHit = SearchHit(text: string, metadata: Option<Metadata>, score: real)

  /** A passage as the API reports it. */
  datatype SearchResult = SearchResult(text: string, metadata: Metadata, score: real)

  /** Reformats passages for a response: same length and order, text copied,
      missing metadata turned into `{}`, and the score passed through the
      rounding (kept abstract: `round(score, 4)` on floats). */
  function FormatSources(sources: seq<SearchHit>, round: real -> real): (r: seq<SearchResult>)
    ensures |r| == |sources|
    ensures forall i :: 0 <= i < |r| ==>
      r[i].text == sources[i].text
      && r[i].metadata == OrEmpty(sources[i].metadata)
      && r[i].score == round(sources[i].score)
  {
    if sources == [] then []
    else
      [SearchResult(sources[0].text, OrEmpty(sources[0].metadata), round(sources[0].score))]
      + FormatSources(sources[1..], round)
  }

  /** What listing the installed models gives: their names, or an exception
      (the server is unreachable, or the reply lacks the expected fields). */
  datatype ModelListing = Listed(names: seq<string>) | ListRaised

  /** Whether some name contains `llama3` (the filtering comprehension of
      `check_ollama_health`, tested for emptiness). */
  function AnyLlama(names: seq<string>): (b: bool)
    ensures b <==> exists i :: 0 <= i < |names| && Contains(names[i], "llama3")
  {
    if names == [] then false
    else
      var rest := AnyLlama(names[1..]);
      assert forall i :: 1 <= i < |names| ==> names[i] == names[1..][i - 1];
      Contains(names[0], "llama3") || rest
  }

  /** The model server's health: "healthy" when a model whose name contains
      `llama3` is installed, "no llama model found" when none is, and
      "unhealthy" when listing the models raises. */
  function CheckOllamaHealth(listing: ModelListing): (status: string)
    ensures status == "unhealthy" <==> listing.ListRaised?
    ensures status == "healthy" <==>
      listing.Listed? && exists i :: 0 <= i < |listing.names| && Contains(listing.names[i], "llama3")
    ensures status == "no llama model found" <==>
      listing.Listed? && forall i :: 0 <= i < |listing.names| ==> !Contains(listing.names[i], "llama3")
  {
    match listing
    case ListRaised => "unhealthy"
    case Listed(names) => if AnyLlama(names) then "healthy" else "no llama model found"
  }
}
