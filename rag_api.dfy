/** The request handlers of the API that hold decisions: asking a question
    (retrieve, assemble the context, generate, report the sources), the plain
    search, and the health summary. The vector store and the model server are
    inputs: functions from what they are sent to what they answer. */
module RagApi {
  import opened Common
  import opened PythonOps
  import opened Utils

  /** The request body of `/ask` and `/search`; `top_k` defaults to 3. */
  datatype Query = Query(question: string, topK: Option<int>)

  /** What the vector store's search answers: the hits in ranking order, or
      the message of the exception it raised. */
  datatype SearchReply = Hits(hits: seq<SearchHit>) | SearchRaised(message: string)

  datatype RagResponse = RagResponse(answer: string, sources: seq<SearchResult>, question: string)

  /** A handler's outcome: its response body, or an HTTP error. */
  datatype Outcome<+T> = Answered(body: T) | HttpError(statusCode: int, detail: string)

  const NoResultsAnswer: string := "Tidak ditemukan informasi yang relevan untuk pertanyaan ini."

  /** The label that numbers a passage in the context, counting from 1. */
  function SourceLabel(i: nat): string
  {
    "Source " + NatToString(i + 1) + ":\n"
  }

  /** `f"Source {i+1}:\n{text}"`. */
  function SourceBlock(i: nat, text: string): string
  {
    SourceLabel(i) + text
  }

  /** The blocks of the hits from position `from` on, each numbered by its
      position in the ranking. */
  function SourceBlocks(hits: seq<SearchHit>, from: nat): (blocks: seq<string>)
    requires from <= |hits|
    ensures |blocks| == |hits| - from
    ensures forall k :: 0 <= k < |blocks| ==> blocks[k] == SourceBlock(from + k, hits[from + k].text)
    decreases |hits| - from
  {
    if from == |hits| then [] else [SourceBlock(from, hits[from].text)] + SourceBlocks(hits, from + 1)
  }

  /** The context handed to the generator: the numbered passages, in ranking
      order, separated by blank lines. */
  function ContextOf(hits: seq<SearchHit>): string
  {
    Join("\n\n", SourceBlocks(hits, 0))
  }

  /** One more hit adds a blank line and its numbered block at the end of
      the context (or is the whole context when it is the first). */
  lemma ContextOfAppend(hits: seq<SearchHit>, h: SearchHit)
    ensures ContextOf(hits + [h]) ==
      if hits == [] then SourceBlock(0, h.text)
      else ContextOf(hits) + "\n\n" + SourceBlock(|hits|, h.text)
  {
    var all := hits + [h];
    assert SourceBlocks(all, 0) == SourceBlocks(hits, 0) + [SourceBlock(|hits|, h.text)];
    JoinAppend("\n\n", SourceBlocks(hits, 0), SourceBlock(|hits|, h.text));
  }

  /** The numeral sits between the fixed prefix and the fixed suffix. */
  lemma LabelNumeral(i: nat)
    ensures var l := SourceLabel(i); 9 <= |l| && l[7..|l| - 2] == NatToString(i + 1)
  {
    var n := NatToString(i + 1);
    assert SourceLabel(i) == "Source " + n + ":\n";
  }

  /** The rank can be read back from its label: labels of different ranks
      differ, so the model can tell the passages apart. */
  lemma SourceLabelInjective(i: nat, j: nat)
    ensures SourceLabel(i) == SourceLabel(j) ==> i == j
  {
    LabelNumeral(i);
    LabelNumeral(j);
    NatToStringRoundTrip(i + 1);
    NatToStringRoundTrip(j + 1);
  }

  /** `ask_question`: retrieve with the question and `top_k`; no hits gives
      the fixed answer without generating; otherwise the answer is generated
      from the numbered passages and the verbatim question (with no history),
      and the response echoes the formatted sources and the question. A
      failed search becomes HTTP 500. */
  method AskQuestion(query: Query, search: (string, Option<int>) -> SearchReply,
                     llm: GenerateRequest -> Reply, round: real -> real)
    returns (outcome: Outcome<RagResponse>)
    ensures search(query.question, query.topK).SearchRaised? ==>
      outcome == HttpError(500, "Error generating response: " + search(query.question, query.topK).message)
    ensures search(query.question, query.topK) == Hits([]) ==>
      outcome == Answered(RagResponse(NoResultsAnswer, [], query.question))
    ensures var reply := search(query.question, query.topK);
      reply.Hits? && reply.hits != [] ==>
        var generated := llm(RequestFor(ContextOf(reply.hits), query.question, None, false));
        outcome.Answered?
        && outcome.body.sources == FormatSources(reply.hits, round)
        && outcome.body.question == query.question
        && (if generated.Returned? && generated.response.Some?
            then outcome.body.answer == Strip(generated.response.value)
            else outcome.body.answer == Fallback)
  {
    var results := search(query.question, query.topK);
    if results.SearchRaised? {
      return HttpError(500, "Error generating response: " + results.message);
    }
    if results.hits == [] {
      return Answered(RagResponse(NoResultsAnswer, [], query.question));
    }
    var context := ContextOf(results.hits);
    var answer := GenerateResponse(context, query.question, None, llm);
    outcome := Answered(RagResponse(answer, FormatSources(results.hits, round), query.question));
  }

  /** `search_documents`: the formatted hits of the search, in ranking order,
      or HTTP 500 when the search raises. */
  function SearchDocuments(query: Query, search: (string, Option<int>) -> SearchReply, round: real -> real)
    : (outcome: Outcome<seq<SearchResult>>)
    ensures search(query.question, query.topK).Hits? ==>
      outcome == Answered(FormatSources(search(query.question, query.topK).hits, round))
    ensures search(query.question, query.topK).SearchRaised? ==>
      outcome == HttpError(500, "Error searching: " + search(query.question, query.topK).message)
  {
    match search(query.question, query.topK)
    case Hits(hits) => Answered(FormatSources(hits, round))
    case SearchRaised(message) => HttpError(500, "Error searching: " + message)
  }

  datatype HealthStatus = HealthStatus(status: string, qdrantStatus: string, ollamaStatus: string)

  /** `health_check`: the store is "healthy" unless reading its collection
      information raises, and the system is "healthy" exactly when both the
      store and the model server are, "degraded" otherwise. */
  function HealthCheck(collectionInfoRaises: bool, ollamaStatus: string): (h: HealthStatus)
    ensures h.qdrantStatus == "healthy" <==> !collectionInfoRaises
    ensures h.qdrantStatus == "unhealthy" <==> collectionInfoRaises
    ensures h.ollamaStatus == ollamaStatus
    ensures h.status == "healthy" <==> !collectionInfoRaises && ollamaStatus == "healthy"
    ensures h.status == "degraded" <==> !(h.status == "healthy")
  {
    var qdrantStatus := if collectionInfoRaises then "unhealthy" else "healthy";
    HealthStatus(
      if qdrantStatus == "healthy" && ollamaStatus == "healthy" then "healthy" else "degraded",
      qdrantStatus,
      ollamaStatus)
  }

  /** End to end, the system is healthy exactly when the store answers and a
      model whose name contains `llama3` is installed. */
  lemma HealthyIffStoreAndLlama(collectionInfoRaises: bool, listing: ModelListing)
    ensures HealthCheck(collectionInfoRaises, CheckOllamaHealth(listing)).status == "healthy" <==>
      !collectionInfoRaises && listing.Listed?
      && exists i :: 0 <= i < |listing.names| && Contains(listing.names[i], "llama3")
  {
  }
}
