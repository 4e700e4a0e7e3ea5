/** The plain-text chunker and the choice of processor by file extension.
    File reading and PDF extraction are outside the model. */
module DocumentProcessors {
  import opened Common
  import opened PythonOps

  /** The chunking parameters `TextProcessor.process` uses by default. */
  const DefaultChunkSize: int := 1000
  const DefaultChunkOverlap: int := 200

  /** `end = start + chunk_size`, lowered to the text length when it passes it. */
  function ChunkEnd(n: int, chunkSize: int, start: int): (e: int)
    ensures e <= n && e <= start + chunkSize
    ensures start < n && chunkSize >= 0 ==> start <= e
  {
    if start + chunkSize > n then n else start + chunkSize
  }

  /** The value of `start` when iteration `k` of the splitting loop begins
      (iterations counted from 0), following `start = end - chunk_overlap`. */
  function StartAt(n: int, chunkSize: int, chunkOverlap: int, k: nat): int
  {
    if k == 0 then 0
    else ChunkEnd(n, chunkSize, StartAt(n, chunkSize, chunkOverlap, k - 1)) - chunkOverlap
  }

  /** The chunk iteration `k` appends: `text[start:end]`. */
  function ChunkAt(text: string, chunkSize: int, chunkOverlap: int, k: nat): string
  {
    var start := StartAt(|text|, chunkSize, chunkOverlap, k);
    Slice(text, start, ChunkEnd(|text|, chunkSize, start))
  }

  /** The chunks of the first `m` iterations, were the guard ignored. The
      contract gives only the length; `ChunksIndex` states the content. */
  function Chunks(text: string, chunkSize: int, chunkOverlap: int, m: nat): (r: seq<string>)
    ensures |r| == m
  {
    if m == 0 then [] else Chunks(text, chunkSize, chunkOverlap, m - 1) + [ChunkAt(text, chunkSize, chunkOverlap, m - 1)]
  }

  /** Element `k` of the chunk list is the chunk of iteration `k`. */
  lemma {:induction false} ChunksIndex(text: string, chunkSize: int, chunkOverlap: int, m: nat, k: nat)
    requires k < m
    ensures Chunks(text, chunkSize, chunkOverlap, m)[k] == ChunkAt(text, chunkSize, chunkOverlap, k)
  {
    if k < m - 1 {
      ChunksIndex(text, chunkSize, chunkOverlap, m - 1, k);
    }
  }

  /** `TextProcessor._split_text`, run for at most `fuel` iterations.
      `finished` tells whether the loop's own guard stopped it; otherwise
      `fuel` iterations ran and the loop would go on. The chunks are those
      of the loop's first iterations, in order. */
  method SplitText(text: string, chunkSize: int, chunkOverlap: int, fuel: nat)
    returns (chunks: seq<string>, finished: bool)
    ensures |chunks| <= fuel
    ensures forall k :: 0 <= k < |chunks| ==> StartAt(|text|, chunkSize, chunkOverlap, k) < |text|
    ensures forall k :: 0 <= k < |chunks| ==> chunks[k] == ChunkAt(text, chunkSize, chunkOverlap, k)
    ensures finished <==> StartAt(|text|, chunkSize, chunkOverlap, |chunks|) >= |text|
    ensures !finished ==> |chunks| == fuel
    ensures text == [] ==> chunks == [] && finished
    ensures chunkSize >= 0 ==> forall k :: 0 <= k < |chunks| ==> |chunks[k]| <= chunkSize
    ensures chunkOverlap == 0 && chunkSize > 0 && fuel >= |text| ==> finished && Join("", chunks) == text
    ensures chunkOverlap > 0 && text != [] ==> !finished && |chunks| == fuel
  {
    chunks := [];
    var start := 0;
    while start < |text| && |chunks| < fuel
      invariant |chunks| <= fuel
      invariant start == StartAt(|text|, chunkSize, chunkOverlap, |chunks|)
      invariant chunks == Chunks(text, chunkSize, chunkOverlap, |chunks|)
      invariant GuardHeld(|text|, chunkSize, chunkOverlap, |chunks|)
      decreases fuel - |chunks|
    {
      var end := start + chunkSize;
      if end > |text| {
        end := |text|;
      }
      chunks := chunks + [Slice(text, start, end)];
      start := end - chunkOverlap;
    }
    finished := start >= |text|;
    GuardHeldAll(|text|, chunkSize, chunkOverlap, |chunks|);
    SplitTextOutcome(text, chunkSize, chunkOverlap, fuel, chunks);
  }

  /** The loop's guard held at the start of each of the first `m` iterations.
      This restates `forall k :: k < m ==> StartAt(k) < n` recursively, which
      keeps the loop's proof small; `GuardHeldAll` recovers the quantified
      form. */
  predicate GuardHeld(n: int, chunkSize: int, chunkOverlap: int, m: nat)
  {
    m == 0 || (GuardHeld(n, chunkSize, chunkOverlap, m - 1) && StartAt(n, chunkSize, chunkOverlap, m - 1) < n)
  }

  lemma {:induction false} GuardHeldAll(n: int, chunkSize: int, chunkOverlap: int, m: nat)
    requires GuardHeld(n, chunkSize, chunkOverlap, m)
    ensures forall k :: 0 <= k < m ==> StartAt(n, chunkSize, chunkOverlap, k) < n
  {
    if m > 0 {
      GuardHeldAll(n, chunkSize, chunkOverlap, m - 1);
    }
  }

  /** What the chunks the loop produced satisfy once it has stopped after
      `|chunks|` iterations, by its own guard or because `fuel` ran out. */
  lemma SplitTextOutcome(text: string, chunkSize: int, chunkOverlap: int, fuel: nat, chunks: seq<string>)
    requires |chunks| <= fuel && chunks == Chunks(text, chunkSize, chunkOverlap, |chunks|)
    requires forall k :: 0 <= k < |chunks| ==> StartAt(|text|, chunkSize, chunkOverlap, k) < |text|
    requires StartAt(|text|, chunkSize, chunkOverlap, |chunks|) < |text| ==> |chunks| == fuel
    ensures forall k :: 0 <= k < |chunks| ==> chunks[k] == ChunkAt(text, chunkSize, chunkOverlap, k)
    ensures chunkSize >= 0 ==> forall k :: 0 <= k < |chunks| ==> |chunks[k]| <= chunkSize
    ensures chunkOverlap == 0 && chunkSize > 0 && fuel >= |text| ==>
      StartAt(|text|, chunkSize, chunkOverlap, |chunks|) >= |text| && Join("", chunks) == text
    ensures chunkOverlap > 0 && text != [] ==> StartAt(|text|, chunkSize, chunkOverlap, |chunks|) < |text|
  {
    ChunksAll(text, chunkSize, chunkOverlap, chunks);
    if chunkSize >= 0 {
      forall k | 0 <= k < |chunks| ensures |chunks[k]| <= chunkSize {
        ChunkAtLength(text, chunkSize, chunkOverlap, k);
      }
    }
    if chunkOverlap == 0 && chunkSize > 0 && fuel >= |text| {
      NoOverlapFinishes(text, chunkSize, fuel, |chunks|);
    }
    if chunkOverlap > 0 && text != [] {
      OverlapNeverFinishes(|text|, chunkSize, chunkOverlap, |chunks|);
    }
  }

  /** Without overlap, a positive chunk size and at least `len(text)`
      iterations allowed, the loop stops by its guard and the chunks,
      concatenated, are the text. */
  lemma NoOverlapFinishes(text: string, chunkSize: int, fuel: nat, m: nat)
    requires chunkSize > 0 && fuel >= |text| && m <= fuel
    requires StartAt(|text|, chunkSize, 0, m) < |text| ==> m == fuel
    ensures StartAt(|text|, chunkSize, 0, m) >= |text|
    ensures Join("", Chunks(text, chunkSize, 0, m)) == text
  {
    NoOverlapProgress(|text|, chunkSize, m);
    NoOverlapCover(text, chunkSize, m);
    assert text[..|text|] == text;
  }

  /** A chunk the loop appends is at most `chunkSize` long. */
  lemma ChunkAtLength(text: string, chunkSize: int, chunkOverlap: int, k: nat)
    requires chunkSize >= 0 && StartAt(|text|, chunkSize, chunkOverlap, k) < |text|
    ensures |ChunkAt(text, chunkSize, chunkOverlap, k)| <= chunkSize
  {
  }

  /** Without overlap every `start` lies within the text. */
  lemma {:induction false} NoOverlapStartInRange(n: nat, chunkSize: int, k: nat)
    requires chunkSize > 0
    ensures 0 <= StartAt(n, chunkSize, 0, k) <= n
  {
    if k > 0 {
      NoOverlapStartInRange(n, chunkSize, k - 1);
    }
  }

  /** Without overlap, iteration `k` takes the piece of the text from its
      `start` to its `end`, and the next iteration starts at that `end`. */
  lemma NoOverlapChunk(text: string, chunkSize: int, k: nat)
    requires chunkSize > 0
    ensures var s := StartAt(|text|, chunkSize, 0, k);
      var e := ChunkEnd(|text|, chunkSize, s);
      0 <= s <= e <= |text| && StartAt(|text|, chunkSize, 0, k + 1) == e
      && ChunkAt(text, chunkSize, 0, k) == text[s..e]
  {
    NoOverlapStartInRange(|text|, chunkSize, k);
  }

  /** Without overlap the chunks of the first `m` iterations, concatenated,
      are exactly the text up to the next `start`. */
  lemma {:induction false} NoOverlapCover(text: string, chunkSize: int, m: nat)
    requires chunkSize > 0
    ensures var s := StartAt(|text|, chunkSize, 0, m);
      0 <= s <= |text| && Join("", Chunks(text, chunkSize, 0, m)) == text[..s]
  {
    NoOverlapStartInRange(|text|, chunkSize, m);
    if m > 0 {
      var init := Chunks(text, chunkSize, 0, m - 1);
      var piece := ChunkAt(text, chunkSize, 0, m - 1);
      var s := StartAt(|text|, chunkSize, 0, m - 1);
      var e := StartAt(|text|, chunkSize, 0, m);
      NoOverlapCover(text, chunkSize, m - 1);
      NoOverlapChunk(text, chunkSize, m - 1);
      assert Join("", init) == text[..s] && piece == text[s..e];
      ConcatAppend(init, piece);
      PrefixThenSlice(text, s, e);
      assert Join("", init + [piece]) == text[..e];
    }
  }

  /** With a positive overlap the loop never ends on a non-empty text: every
      `end` is at most `len(text)`, so every later `start` is at most
      `len(text) - chunk_overlap`, which is still inside the text. */
  lemma OverlapNeverFinishes(n: int, chunkSize: int, chunkOverlap: int, k: nat)
    requires chunkOverlap > 0 && n > 0
    ensures StartAt(n, chunkSize, chunkOverlap, k) < n
    ensures k >= 1 ==> StartAt(n, chunkSize, chunkOverlap, k) <= n - chunkOverlap
  {
  }

  /** Once a chunk reaches the end of the text and the chunk size is at least
      the overlap, `start` is `len(text) - chunk_overlap` from then on. */
  lemma {:induction false} StuckAtEnd(n: int, chunkSize: int, chunkOverlap: int, k: nat, m: nat)
    requires 0 < chunkOverlap <= chunkSize
    requires StartAt(n, chunkSize, chunkOverlap, k) + chunkSize >= n
    ensures StartAt(n, chunkSize, chunkOverlap, k + 1 + m) == n - chunkOverlap
    decreases m
  {
    if m > 0 {
      StuckAtEnd(n, chunkSize, chunkOverlap, k, m - 1);
    }
  }

  /** With a chunk size no larger than the overlap, `start` never advances. */
  lemma NoAdvanceWhenOverlapCoversChunk(n: int, chunkSize: int, chunkOverlap: int, k: nat)
    requires chunkSize <= chunkOverlap
    ensures StartAt(n, chunkSize, chunkOverlap, k + 1) <= StartAt(n, chunkSize, chunkOverlap, k)
  {
  }

  /** Without overlap each iteration moves `start` forward by at least one
      character until it reaches the end of the text. */
  lemma {:induction false} NoOverlapProgress(n: nat, chunkSize: int, k: nat)
    requires chunkSize > 0
    ensures StartAt(n, chunkSize, 0, k) >= Min(k, n)
  {
    if k > 0 {
      NoOverlapProgress(n, chunkSize, k - 1);
    }
  }

  /** Without overlap the chunks start at multiples of the chunk size. */
  lemma {:induction false} NoOverlapStarts(n: nat, chunkSize: int, k: nat)
    requires chunkSize > 0
    ensures StartAt(n, chunkSize, 0, k) == Min(k * chunkSize, n)
  {
    if k > 0 {
      NoOverlapStarts(n, chunkSize, k - 1);
      assert k * chunkSize == (k - 1) * chunkSize + chunkSize;
    }
  }

  /** With the default parameters the two-character text "ab" is split into
      "ab", "ab", "ab", ... without end: `start` is -198 from the second
      iteration on, still below `len(text)`. */
  lemma {:induction false} DefaultsNeverFinish(k: nat)
    ensures StartAt(2, DefaultChunkSize, DefaultChunkOverlap, k) == if k == 0 then 0 else -198
    ensures ChunkAt("ab", DefaultChunkSize, DefaultChunkOverlap, k) == "ab"
  {
    if k > 0 {
      DefaultsNeverFinish(k - 1);
    }
  }

  /** The value of `end` in iteration `k` of the splitting loop. */
  function EndAt(n: int, chunkSize: int, chunkOverlap: int, k: nat): int
  {
    ChunkEnd(n, chunkSize, StartAt(n, chunkSize, chunkOverlap, k))
  }

  /** None of the first `m` iterations produced a chunk reaching the end of
      the text (stated recursively, like `GuardHeld`, to keep the loop's
      proof small). */
  predicate EndsInside(n: int, chunkSize: int, chunkOverlap: int, m: nat)
  {
    m == 0
    || (EndsInside(n, chunkSize, chunkOverlap, m - 1)
        && EndAt(n, chunkSize, chunkOverlap, m - 1) < n)
  }

  lemma {:induction false} EndsInsideAll(n: int, chunkSize: int, chunkOverlap: int, m: nat)
    requires EndsInside(n, chunkSize, chunkOverlap, m)
    ensures forall k :: 0 <= k < m ==> EndAt(n, chunkSize, chunkOverlap, k) < n
  {
    if m > 0 {
      EndsInsideAll(n, chunkSize, chunkOverlap, m - 1);
    }
  }

  /** A list that equals the first chunks of the loop holds, at each
      position, the chunk of that iteration. */
  lemma ChunksAll(text: string, chunkSize: int, chunkOverlap: int, chunks: seq<string>)
    requires chunks == Chunks(text, chunkSize, chunkOverlap, |chunks|)
    ensures forall k :: 0 <= k < |chunks| ==> chunks[k] == ChunkAt(text, chunkSize, chunkOverlap, k)
  {
    forall k | 0 <= k < |chunks| ensures chunks[k] == ChunkAt(text, chunkSize, chunkOverlap, k) {
      ChunksIndex(text, chunkSize, chunkOverlap, |chunks|, k);
    }
  }

  datatype Processor = TextProcessor | PDFProcessor

  /** `DocumentProcessorFactory.get_processor`: an exact, case-sensitive
      lookup of the extension; anything else is a `ValueError`. */
  function GetProcessor(fileExtension: string): (r: Result<Processor>)
    ensures r == Ok(TextProcessor) <==> fileExtension == ".txt"
    ensures r == Ok(PDFProcessor) <==> fileExtension == ".pdf"
    ensures r.Err? <==> fileExtension != ".txt" && fileExtension != ".pdf"
    ensures r.Err? ==> r.message == "Unsupported file type: " + fileExtension
  {
    var processors := map[".txt" := TextProcessor, ".pdf" := PDFProcessor];
    if fileExtension !in processors then Err("Unsupported file type: " + fileExtension)
    else Ok(processors[fileExtension])
  }
}
