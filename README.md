# A verified model of the RAG service's core

This project models the decision-making core of a retrieval-augmented
question-answering service (FastAPI, a Qdrant vector store, an Ollama
language model). The model covers:

- **Conversation store** (`Conversations`, from `conversation_manager.py`).
  `ConversationManager` is a class whose `conversations` map the methods
  update in place. The model covers creation under a fresh id,
  sliding-window retention on append, history reads with Python's slice
  semantics, and the idle-time expiry sweep with its two loops.
- **Generation helpers** (`Utils`, from `utils.py`).
  - The history block. Its loop becomes a method proved against a
    rendering function.
  - The prompt and the request sent to the model server.
  - The fail-closed buffered and streaming generators.
  - The retrieval-query rewrite.
  - `check_ollama_health`.
  - `format_sources`.
- **Document processors** (`DocumentProcessors`, from
  `document_processors.py`).
  - The sliding-window splitter `_split_text`, which never terminates on
    a non-empty text when `chunk_overlap > 0` (the default is 200; see
    Findings).
  - A corrected splitter (`ChunkCover` describes how overlapping chunks
    cover a text, and `FixedSplitter` holds the corrected loop and its
    proof).
  - The processor lookup by file extension.
- **Request handlers** (`RagApi`, from `main.py`): `ask_question`,
  `search_documents` and `health_check`.
- **Shared pieces.** `PythonOps` models the Python built-ins the core
  relies on: slices with negative and clamped bounds, `str.strip`,
  `str.join`, `str(n)` and substring `in`. `Common` holds `Option`, `Result`
  and the metadata dictionary.

The clock, the id generator and the two backends are inputs:

- `now` is a time in microseconds.
- `freshId` is the value `uuid4()` produced. It is required to be unused.
- The vector search is a function `(question, top_k) -> SearchReply`.
- The model server is a function from the request to a reply, or to a
  chunk stream.

Three behaviours of the code a reader may not expect:

- The retention bound `len(messages) <= max_history` holds only for
  `max_history >= 1`. For `max_history == 0` the slice `[-0:]` keeps
  everything, so a conversation grows without bound (`ZeroWindowGrows`).
- `ask_question` does not touch the conversation store. It does not rewrite
  the query and applies no second relevance threshold.
- Passages are labelled with their rank only, not their score.

## Model

| member | source | states |
|---|---|---|
| Common.OrEmpty | conversation_manager.py:36 | `metadata or {}`: a missing dictionary becomes `{}`, and a present one is kept as it is |
| PythonOps.SliceBound | conversation_manager.py:44 | Python's normalisation of a slice bound: a negative bound counts from the end, and the result is clamped into `0..len` |
| PythonOps.Slice | document_processors.py:26 | `s[i:j]` agrees with the in-range slice, and its length is at most `j - i` |
| PythonOps.SliceFrom | conversation_manager.py:53 | `s[i:]`: for negative `i` the last `min(-i, len)` elements, otherwise all but the first `min(i, len)` |
| PythonOps.LStrip | utils.py:36 | the result is a suffix, everything removed is whitespace, and the result does not start with whitespace |
| PythonOps.RStrip | utils.py:36 | the result is a prefix, everything removed is whitespace, and the result does not end with whitespace |
| PythonOps.Strip | utils.py:36 | a non-empty result neither starts nor ends with whitespace |
| PythonOps.StripIsTrimmedInfix | utils.py:36 | `strip` keeps a contiguous piece of the input with only whitespace around it, and is idempotent |
| PythonOps.JoinAppend | main.py:124-125 | joining one more part appends the separator and the part |
| PythonOps.ConcatAppend | document_processors.py:26 | with the empty separator, joining one more part appends the part itself |
| PythonOps.ContainsIff | utils.py:105-106 | the left-to-right scan for `'llama3' in name` succeeds exactly when the substring occurs at some position |
| PythonOps.NatToString | main.py:125 | `str(n)` is a non-empty run of decimal digits without a leading zero |
| PythonOps.NatToStringRoundTrip | main.py:125 | `str(n)` read back as a decimal numeral gives `n` |
| Conversations.DistinctCard | conversation_manager.py:76 | a list of distinct ids has as many elements as the set of them, so the returned count is the number of removed conversations |
| Conversations.ConversationManager.constructor | conversation_manager.py:7-10 | an empty store with the given window (default 10) and TTL (default 3600 s) |
| Conversations.ConversationManager.CreateConversation | conversation_manager.py:12-21 | a new empty conversation under the fresh id with both timestamps `now`, no other entry changed, and the store invariant kept |
| Conversations.ConversationManager.GetConversation | conversation_manager.py:23-25 | `dict.get`: the stored record exactly when the id is known, else nothing; a valid store returns the record with that id |
| Conversations.ConversationManager.AddMessage | conversation_manager.py:27-44 | an unknown id changes nothing; otherwise only that conversation changes: `updated_at := now` and its messages become the retention of old messages plus the new one, with metadata defaulting to `{}`; the invariant is kept |
| Conversations.ConversationManager.GetConversationHistory | conversation_manager.py:46-54 | `[]` for an unknown id; every message for no limit or limit 0; the last `limit` messages for a positive limit; all but the first `-limit` for a negative one |
| Conversations.ConversationManager.GetRecentContext | conversation_manager.py:56-58 | the newest `min(max_messages, len)` messages in order, all messages for 0, Python's slice for a negative value, `[]` for an unknown id |
| Conversations.ConversationManager.ConversationExists | conversation_manager.py:60-62 | true exactly when `get_conversation` finds a record |
| Conversations.ConversationManager.CleanupExpiredConversations | conversation_manager.py:64-76 | the new store is the old one minus exactly the conversations idle for more than the TTL, and the count returned is the number of them |
| Conversations.TrimmedIsSuffix | conversation_manager.py:43-44 | retention keeps a suffix of the messages, in order |
| Conversations.TrimmedBound | conversation_manager.py:43-44 | with a window of at least 1 exactly `min(len, window)` messages remain; window 0 keeps all; a negative window drops from the front |
| Conversations.AppendedIsNewest | conversation_manager.py:39-44 | for `max_history >= 0`, the appended message is the newest retained one, preceded by the newest older messages |
| Conversations.AppendPreservesBound | conversation_manager.py:43-44 | for `max_history >= 1`, appending to a window within the bound keeps it within the bound |
| Conversations.ZeroWindowGrows | conversation_manager.py:43-44 | with `max_history == 0` every append lengthens the history by one |
| Conversations.SweepKeepsExactlyFresh | conversation_manager.py:69-74 | a conversation survives the sweep exactly when it is not idle for more than the TTL, and it survives unchanged |
| Conversations.SweepSparesNewer | conversation_manager.py:70 | the sweep is monotone: a conversation updated no earlier than a kept one is kept |
| Utils.HistoryLinesConcat | utils.py:12-14 | the rendering of a history is the concatenation of the renderings of its parts |
| Utils.HistoryLinesStep | utils.py:12-14 | each loop iteration adds exactly the current entry's line |
| Utils.BuildHistoryContext | utils.py:9-14 | nothing for a missing or empty history; otherwise the header followed by one `Role: content` line per entry, in order |
| Utils.PromptEmbedsVerbatim | utils.py:16-23 | the prompt contains the context, the history block and the question verbatim, in that order, between the fixed texts |
| Utils.PromptDeterminesQuestion | utils.py:16-23 | the same context and history with different questions give different prompts |
| Utils.GenerateResponse | utils.py:5-38 | the prompt and the fixed sampling options go to the model; the answer is the stripped reply, or the fixed degraded-service message when the call raises or has no `response` |
| Utils.ResponsesFromChunks | utils.py:73-75 | at most one fragment per chunk, one per chunk when every chunk has a `response`, and the fragments are exactly the `response` values the chunks carry |
| Utils.ResponsesConcat | utils.py:73-75 | the fragments of two consecutive runs of chunks are those of the first run followed by those of the second, so fragments keep the order of their chunks |
| Utils.ResponsesOfOne | utils.py:74-75 | a single chunk yields its `response` when it has one and nothing otherwise |
| Utils.GenerateStreamResponse | utils.py:40-78 | the fragments delivered before any failure, followed by one fallback fragment exactly when the stream raises |
| Utils.LastTwoUserContents | utils.py:88-91 | among the last two entries the user contents are both contents when both are user entries, otherwise at most one |
| Utils.BuildEnhancedQuery | utils.py:80-98 | the question plus ` [Konteks: <older content>]` when the last two entries are both user messages, the question unchanged otherwise |
| Utils.EnhancedQueryExtendsQuestion | utils.py:80-98 | the rewrite always begins with the question |
| Utils.EnhancedQueryReadsLastTwo | utils.py:88-89 | entries older than the last two never affect the rewrite |
| Utils.EnhancedQueryIgnoresAssistantText | utils.py:88-91 | assistant contents never affect the rewrite |
| Utils.FormatSources | utils.py:114-123 | same length and order, text copied, metadata defaulted to `{}`, score rounded |
| Utils.AnyLlama | utils.py:105-107 | the filtered list is non-empty exactly when some model name contains `llama3` |
| Utils.CheckOllamaHealth | utils.py:101-111 | "unhealthy" exactly when listing raises; "healthy" exactly when a `llama3` model is listed; "no llama model found" exactly when none is |
| DocumentProcessors.ChunkEnd | document_processors.py:23-25 | the chunk end never passes the text or `start + chunk_size`; for `start < len(text)` and `chunk_size >= 0` it is not before `start` |
| DocumentProcessors.Chunks | document_processors.py:26 | the first `m` iterations produce `m` chunks |
| DocumentProcessors.ChunksIndex | document_processors.py:26 | chunk `k` of the list is the chunk of iteration `k` |
| DocumentProcessors.SplitText | document_processors.py:18-28 | within the iteration bound: the chunks are those of the loop's iterations in order, each at most `chunk_size` long when `chunk_size >= 0`; empty text gives no chunks; without overlap, with `chunk_size > 0` and at least `len(text)` iterations allowed, the loop ends and the chunks concatenate to the text; with a positive overlap on non-empty text the loop never ends |
| DocumentProcessors.GuardHeldAll | document_processors.py:22 | every iteration that ran began with `start < len(text)` |
| DocumentProcessors.SplitTextOutcome | document_processors.py:18-28 | what the produced chunks satisfy once the loop has stopped |
| DocumentProcessors.NoOverlapFinishes | document_processors.py:22-27 | with no overlap and a positive size, `len(text)` iterations end the loop and the chunks are an exact cover |
| DocumentProcessors.ChunkAtLength | document_processors.py:23-26 | for `chunk_size >= 0`, every chunk is at most `chunk_size` long |
| DocumentProcessors.NoOverlapStartInRange | document_processors.py:27 | without overlap and with `chunk_size > 0`, `start` stays within `0..len(text)` |
| DocumentProcessors.NoOverlapChunk | document_processors.py:23-27 | without overlap and with `chunk_size > 0`, iteration `k` takes `text[start:end]` within the text, and the next iteration starts at that `end` |
| DocumentProcessors.NoOverlapCover | document_processors.py:22-27 | without overlap and with `chunk_size > 0`, the chunks concatenate to the text up to the current `start` |
| DocumentProcessors.OverlapNeverFinishes | document_processors.py:22-27 | with a positive overlap on non-empty text every `start` stays below `len(text)`, at most `len(text) - overlap` after the first |
| DocumentProcessors.StuckAtEnd | document_processors.py:24-27 | for `0 < chunk_overlap <= chunk_size`, once a chunk reaches the end of the text, `start` stays at `len(text) - chunk_overlap` forever |
| DocumentProcessors.NoAdvanceWhenOverlapCoversChunk | document_processors.py:23-27 | with `chunk_size <= chunk_overlap`, `start` never advances |
| DocumentProcessors.NoOverlapProgress | document_processors.py:22-27 | without overlap and with `chunk_size > 0`, `start` gains at least one position per iteration until the end |
| DocumentProcessors.NoOverlapStarts | document_processors.py:23-27 | without overlap iteration `k` starts at `min(k * chunk_size, len(text))` |
| DocumentProcessors.DefaultsNeverFinish | document_processors.py:22-27 | with the defaults 1000/200 the text "ab" gives `start` 0 and then -198 forever, and every chunk is "ab" |
| DocumentProcessors.EndsInsideAll | document_processors.py:23-25 | when none of the first `m` iterations reached the end, each of their `end` values lies below `len(text)` |
| DocumentProcessors.ChunksAll | document_processors.py:26 | a list equal to the first chunks of the loop holds, at each position, that iteration's `text[start:end]` |
| ChunkCover.StitchAppend | document_processors.py:26 | one more chunk adds itself, less its overlap, to the stitched text |
| ChunkCover.WellChunkedAll | document_processors.py:23-27 | well-formed chunk lists have non-empty chunks within the size, each sharing the overlap with the one before |
| FixedSplitter.NextChunkJoins | document_processors.py:23-27 | a chunk starting `chunk_overlap` before the previous end repeats exactly that overlap |
| FixedSplitter.StitchStep | document_processors.py:23-27 | appending the next chunk extends the stitched text to the chunk's end |
| FixedSplitter.ChunkedStep | document_processors.py:23-27 | appending the next chunk keeps every chunk non-empty, within the size, and overlapping its predecessor |
| FixedSplitter.FixedStep | document_processors.py:23-27 | one iteration keeps the chunks well formed and either completes the cover of the text or covers it up to the next `start + chunk_overlap` |
| FixedSplitter.FixedTracksSource | document_processors.py:23-27 | the chunk the corrected loop appends is the source loop's chunk of that iteration, and its next `start` is the source's |
| FixedSplitter.SourceStep | document_processors.py:23-27 | an iteration whose `end` lies inside the text keeps the source loop's chunks well formed and stitched up to the next `start + chunk_overlap` |
| FixedSplitter.SourceChunksProgress | document_processors.py:22-27 | as long as no chunk reached the end, the source loop's chunks are well formed and stitch back to a prefix of the text |
| FixedSplitter.FixedLoopStep | document_processors.py:22-27 | one iteration of the corrected loop either ends with the final result or keeps the loop invariant: the source's chunks, from the source's starts, none reaching the end |
| FixedSplitter.FixedOutcome | document_processors.py:22-28 | the chunks held when the loop returns are the source's chunks, only the last reaching the end, well formed and stitching back to the text |
| FixedSplitter.SplitTextFixed | document_processors.py:18-28 | the corrected splitter terminates; chunk `k` is the source loop's `text[start:end]` of iteration `k`; only the last chunk's `end` reaches `len(text)`; chunks are non-empty and at most `chunk_size` long; adjacent chunks share the overlap; dropping the overlaps gives back the text; empty text gives no chunks |
| DocumentProcessors.GetProcessor | document_processors.py:46-58 | ".txt" and ".pdf" map to their processors and nothing else does; any other extension is the error `Unsupported file type: <ext>` |
| RagApi.SourceBlocks | main.py:124-125 | one block `Source <i+1>:\n<text>` per hit, numbered by rank, in ranking order |
| RagApi.ContextOfAppend | main.py:124-125 | one more hit appends a blank line and its numbered block to the context |
| RagApi.LabelNumeral | main.py:125 | the label holds the decimal numeral of the rank between its fixed texts |
| RagApi.SourceLabelInjective | main.py:125 | different ranks get different labels |
| RagApi.AskQuestion | main.py:109-137 | a failed search gives HTTP 500; no hits give the fixed answer with no sources, without generating; otherwise the answer is generated from the numbered context and the verbatim question with no history, and the response carries the formatted sources and echoes the question |
| RagApi.SearchDocuments | main.py:98-106 | the formatted hits, or HTTP 500 `Error searching: ...` when the search raises |
| RagApi.HealthCheck | main.py:32-47 | qdrant is "healthy" exactly when reading the collection does not raise; overall "healthy" exactly when both statuses are "healthy", "degraded" otherwise |
| RagApi.HealthyIffStoreAndLlama | main.py:32-47 | for a store that implements `get_collection_info`, the system is healthy exactly when the store answers and a `llama3` model is installed |
| Conversations.Trimmed | conversation_manager.py:43-44 | definition; no contract (the retention rule; its properties are `TrimmedIsSuffix` and `TrimmedBound`) |
| Conversations.Expired | conversation_manager.py:69-71 | definition; no contract (idle for more than the TTL) |
| Conversations.ExpiredIds | conversation_manager.py:69-71 | definition; no contract (the ids the sweep removes) |
| Utils.HistoryLine | utils.py:13-14 | definition; no contract (one `Role: content` line) |
| Utils.HistoryLines | utils.py:12-14 | definition; no contract (the lines of all entries, in order) |
| Utils.HistoryBlock | utils.py:9-14 | definition; no contract (the header and the lines, or nothing) |
| Utils.Prompt | utils.py:16-23 | definition; no contract (the prompt template) |
| Utils.Request | utils.py:26-35 | definition; no contract (the model, prompt and sampling options sent) |
| Utils.RequestFor | utils.py:9-35 | definition; no contract (the request for a context, question and history) |
| Utils.Responses | utils.py:73-75 | definition; no contract (the `response` values of the chunks that carry one) |
| Utils.UserContents | utils.py:88-91 | definition; no contract (the contents of the user entries) |
| Utils.IsUser | utils.py:13 | definition; no contract (`msg.get("role") == "user"`) |
| Utils.ContentOf | utils.py:14 | definition; no contract (`msg.get('content', '')`, empty when absent) |
| DocumentProcessors.StartAt | document_processors.py:21-27 | definition; no contract (`start` at iteration `k`) |
| DocumentProcessors.ChunkAt | document_processors.py:23-26 | definition; no contract (the chunk of iteration `k`) |
| DocumentProcessors.EndAt | document_processors.py:23-25 | definition; no contract (`end` at iteration `k`) |
| ChunkCover.Stitch | document_processors.py:26-27 | definition; no contract (the chunks with each later chunk's overlap dropped) |
| RagApi.SourceLabel | main.py:125 | definition; no contract (`Source <i+1>:`) |
| RagApi.SourceBlock | main.py:125 | definition; no contract (a numbered passage) |
| RagApi.ContextOf | main.py:124-125 | definition; no contract (the numbered passages joined by blank lines) |
| PythonOps.Contains | utils.py:106 | definition; no contract (`sub in s`; its meaning is `ContainsIff`) |
| PythonOps.Join | main.py:124 | definition; no contract (`sep.join(parts)`) |
| PythonOps.IsSpace | utils.py:36 | definition; no contract (the characters `str.isspace` accepts) |

## Left out

- The vector store client (`database.py`), embedding and `get_collection_info`. Search is an input function, and the collection read is a boolean "raises".
- The model server calls (`ollama.generate`, `ollama.list`). They are input functions, or a model listing that may raise.
- HTTP and FastAPI plumbing, CORS, async, `uvicorn`, `add_documents`, `upload_file` and the `/` endpoint. These are framework glue; they make two decisions the model leaves out: `upload_file` lower-cases the file extension before the processor lookup (main.py:77), so ".TXT" is accepted although `GetProcessor` is case-sensitive, and `add_documents` builds a separate store when a `collection` is given (main.py:55-57).
- File I/O in `TextProcessor.process` and all of `PDFProcessor`. These are foreign libraries and file access.
- Configuration values. These are constants read from the environment.
- Utils.FormatSources: `round(score, 4)` on floats is an input function `round`, and scores are reals, because floating point is not modelled.
- Conversations.ConversationManager.AddMessage: the source reads the clock twice, once for the message timestamp and once for `updated_at`. The model uses one `now` for both.
- Conversations.ConversationManager.CreateConversation: `uuid4()` is a `freshId` input that must not already be in use. The model does not capture a collision.
- Metadata values are kept as strings, because the core never inspects them.
- Python dictionary identity and aliasing are not modelled. A returned history is a value, not a live list that later appends would change. Iteration order of the store is also not modelled: the sweep collects ids in an arbitrary order, and only the set removed is stated.
- Utils.GenerateStreamResponse: generator laziness is not modelled, nor a consumer abandoning the stream early. The result is the whole sequence of fragments the generator would yield.
- DocumentProcessors.SplitText: the source loop is unbounded, so the model runs at most `fuel` iterations and reports whether the guard stopped it. Runs longer than the bound are described by the lemmas about `StartAt`.
- FixedSplitter.SplitTextFixed: it requires `0 <= chunk_overlap < chunk_size`, the range in which the fix is proved. The source checks no parameters; a negative overlap with `chunk_size > chunk_overlap` also terminates but is not covered.
- Conversations.ConversationManager.CreateConversation: the source reads the clock twice, for `created_at` and for `updated_at` (conversation_manager.py:17-18). The model uses one `now` for both.
- Utils.Request: the generators' `model` parameter (utils.py:5, 40) is not modelled. Every request names the default `llama3:8b`; the one call in the handlers (main.py:128) passes no model.
- RagApi.AskQuestion: a hit that lacks `text` or `score` raises `KeyError` in the source (HTTP 500). Hits are records that always have both fields, so this path does not arise.
- RagApi.HealthCheck: the shipped store (database.py:17-67) has no `get_collection_info`, so with it the read at main.py:36 always raises and the service always reports "degraded". `collectionInfoRaises` is left free to cover a store that implements the method.
- RagApi.HealthCheck: the Ollama status is a plain input here. `HealthyIffStoreAndLlama` connects it to `CheckOllamaHealth`.

## Findings

| source | as written | input that shows it | evidently intended | confidence | as-written member | corrected member |
|---|---|---|---|---|---|---|
| document_processors.py:22-27 | after the chunk that reaches the end of the text, `start = end - chunk_overlap` lies below `len(text)` again whenever `chunk_overlap > 0`, so the loop appends the last chunk forever | `text = "ab"`, `chunk_size = 1000`, `chunk_overlap = 200` (the defaults): `start` becomes -198 and stays there, appending "ab" forever | stop after the chunk that reaches the end: the same chunks as the source loop up to that one, whose overlaps stitch back to the text | high (not executed) | DocumentProcessors.DefaultsNeverFinish | FixedSplitter.SplitTextFixed |
