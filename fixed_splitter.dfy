/** The splitter as evidently intended, which stops after the chunk that
    reaches the end of the text, and the proof that it does what the source
    loop was meant to do. */
module FixedSplitter {
  import opened PythonOps
  import opened DocumentProcessors
  import opened ChunkCover

  /** A chunk that starts `chunkOverlap` characters before the end of the
      previous one shares the overlap with it, and what it adds beyond the
      overlap is the text from there to its end. */
  lemma NextChunkJoins(text: string, chunkSize: int, chunkOverlap: nat, prev: string, start: int, end: int)
    requires 0 <= chunkOverlap < chunkSize
    requires 0 <= start < |text| && end == Min(start + chunkSize, |text|)
    requires chunkSize <= start + chunkOverlap < |text|
    requires prev == text[start + chunkOverlap - chunkSize..start + chunkOverlap]
    ensures SharesOverlap(prev, text[start..end], chunkOverlap)
    ensures text[start..end][chunkOverlap..] == text[start + chunkOverlap..end]
  {
    var chunk := text[start..end];
    assert chunk[..chunkOverlap] == text[start..start + chunkOverlap];
    assert prev[|prev| - chunkOverlap..] == text[start..start + chunkOverlap];
  }

  /** Appending the next chunk extends the stitched text up to its end. */
  lemma StitchStep(text: string, chunkSize: int, chunkOverlap: nat, chunks: seq<string>, start: int, end: int)
    requires 0 <= chunkOverlap < chunkSize
    requires 0 <= start < |text| && end == Min(start + chunkSize, |text|)
    requires chunks == [] ==> start == 0 && Stitch(chunks, chunkOverlap) == []
    requires chunks != [] ==>
      start + chunkOverlap < |text| && Stitch(chunks, chunkOverlap) == text[..start + chunkOverlap]
    ensures Stitch(chunks + [text[start..end]], chunkOverlap) == text[..end]
  {
    var chunk := text[start..end];
    StitchAppend(chunks, chunkOverlap, chunk);
    if chunks != [] {
      assert chunk[chunkOverlap..] == text[start + chunkOverlap..end];
      PrefixThenSlice(text, start + chunkOverlap, end);
    }
  }

  /** Appending the next chunk keeps the chunk list well formed. */
  lemma ChunkedStep(text: string, chunkSize: int, chunkOverlap: nat, chunks: seq<string>, start: int, end: int)
    requires 0 <= chunkOverlap < chunkSize
    requires 0 <= start < |text| && end == Min(start + chunkSize, |text|)
    requires WellChunked(chunks, chunkSize, chunkOverlap)
    requires chunks != [] ==>
      chunkSize <= start + chunkOverlap < |text|
      && chunks[|chunks| - 1] == text[start + chunkOverlap - chunkSize..start + chunkOverlap]
    ensures WellChunked(chunks + [text[start..end]], chunkSize, chunkOverlap)
  {
    var next := chunks + [text[start..end]];
    assert next[..|next| - 1] == chunks;
    if chunks != [] {
      NextChunkJoins(text, chunkSize, chunkOverlap, chunks[|chunks| - 1], start, end);
    }
  }

  /** One iteration of the corrected loop: the chunk `text[start..end]` is
      appended, and either it reaches the end of the text and the stitch is
      complete, or the loop goes on from `end - chunkOverlap`. */
  lemma FixedStep(text: string, chunkSize: int, chunkOverlap: nat, chunks: seq<string>, start: int, end: int,
                  next: seq<string>, nextStart: int)
    requires 0 <= chunkOverlap < chunkSize
    requires FixedProgress(text, chunkSize, chunkOverlap, chunks, start)
    requires 0 <= start < |text| && end == Min(start + chunkSize, |text|)
    requires next == chunks + [text[start..end]] && nextStart == end - chunkOverlap
    ensures WellChunked(next, chunkSize, chunkOverlap)
    ensures end == |text| ==> Stitch(next, chunkOverlap) == text
    ensures end < |text| ==> FixedProgress(text, chunkSize, chunkOverlap, next, nextStart)
  {
    StitchStep(text, chunkSize, chunkOverlap, chunks, start, end);
    ChunkedStep(text, chunkSize, chunkOverlap, chunks, start, end);
    if end == |text| {
      assert text[..end] == text;
    }
  }

  /** The corrected loop takes the same chunks as the source loop: the chunk
      of iteration `m` is `ChunkAt(m)`, and when it does not reach the end the
      next iteration starts where the source's would. */
  lemma FixedTracksSource(text: string, chunkSize: int, chunkOverlap: int, chunks: seq<string>, start: int, end: int)
    requires 0 <= chunkOverlap < chunkSize
    requires 0 <= start < |text| && end == Min(start + chunkSize, |text|)
    requires start == StartAt(|text|, chunkSize, chunkOverlap, |chunks|)
    requires chunks == Chunks(text, chunkSize, chunkOverlap, |chunks|)
    ensures end == ChunkEnd(|text|, chunkSize, start)
    ensures chunks + [text[start..end]] == Chunks(text, chunkSize, chunkOverlap, |chunks| + 1)
    ensures end - chunkOverlap == StartAt(|text|, chunkSize, chunkOverlap, |chunks| + 1)
  {
    assert ChunkAt(text, chunkSize, chunkOverlap, |chunks|) == text[start..end];
  }

  /** While the source loop's chunks have not reached the end of the text,
      one more iteration keeps them in the state the corrected loop keeps. */
  lemma SourceStep(text: string, chunkSize: int, chunkOverlap: int, m: nat)
    requires 0 <= chunkOverlap < chunkSize && m > 0
    requires FixedProgress(text, chunkSize, chunkOverlap, Chunks(text, chunkSize, chunkOverlap, m - 1),
                           StartAt(|text|, chunkSize, chunkOverlap, m - 1))
    requires EndAt(|text|, chunkSize, chunkOverlap, m - 1) < |text|
    ensures FixedProgress(text, chunkSize, chunkOverlap, Chunks(text, chunkSize, chunkOverlap, m),
                          StartAt(|text|, chunkSize, chunkOverlap, m))
  {
    var prev := Chunks(text, chunkSize, chunkOverlap, m - 1);
    var start := StartAt(|text|, chunkSize, chunkOverlap, m - 1);
    var end := EndAt(|text|, chunkSize, chunkOverlap, m - 1);
    assert 0 <= start < |text| && end == start + chunkSize;
    assert prev + [text[start..end]] == Chunks(text, chunkSize, chunkOverlap, m);
    FixedStep(text, chunkSize, chunkOverlap, prev, start, end,
              Chunks(text, chunkSize, chunkOverlap, m), StartAt(|text|, chunkSize, chunkOverlap, m));
  }

  /** As long as none of its chunks reached the end of the text, the source
      loop's chunks are well formed and stitch back to the text up to the
      end of the last one. */
  lemma {:induction false} SourceChunksProgress(text: string, chunkSize: int, chunkOverlap: int, m: nat)
    requires 0 <= chunkOverlap < chunkSize
    requires EndsInside(|text|, chunkSize, chunkOverlap, m)
    ensures FixedProgress(text, chunkSize, chunkOverlap, Chunks(text, chunkSize, chunkOverlap, m),
                          StartAt(|text|, chunkSize, chunkOverlap, m))
  {
    if m > 0 {
      SourceChunksProgress(text, chunkSize, chunkOverlap, m - 1);
      SourceStep(text, chunkSize, chunkOverlap, m);
    }
  }

  /** One iteration of the corrected loop, against its invariant: either
      the new chunk reaches the end and the chunks are the final result, or
      the invariant holds again from `end - chunkOverlap`. */
  lemma FixedLoopStep(text: string, chunkSize: int, chunkOverlap: int, chunks: seq<string>, start: int, end: int)
    requires 0 <= chunkOverlap < chunkSize
    requires FixedInvariant(text, chunkSize, chunkOverlap, chunks, start)
    requires start < |text| && end == Min(start + chunkSize, |text|)
    ensures end == |text| ==> FixedResult(text, chunkSize, chunkOverlap, chunks + [text[start..end]])
    ensures end < |text| ==>
      end - chunkOverlap < |text|
      && FixedInvariant(text, chunkSize, chunkOverlap, chunks + [text[start..end]], end - chunkOverlap)
  {
    SourceChunksProgress(text, chunkSize, chunkOverlap, |chunks|);
    FixedStep(text, chunkSize, chunkOverlap, chunks, start, end, chunks + [text[start..end]], end - chunkOverlap);
    FixedTracksSource(text, chunkSize, chunkOverlap, chunks, start, end);
    if end == |text| {
      FixedOutcome(text, chunkSize, chunkOverlap, chunks + [text[start..end]]);
    }
  }

  /** The chunks the corrected loop holds when it returns, after the chunk
      that reaches the end of the text, are its final result. */
  lemma FixedOutcome(text: string, chunkSize: int, chunkOverlap: int, chunks: seq<string>)
    requires 0 <= chunkOverlap < chunkSize && chunks != []
    requires WellChunked(chunks, chunkSize, chunkOverlap)
    requires chunks == Chunks(text, chunkSize, chunkOverlap, |chunks|)
    requires EndsInside(|text|, chunkSize, chunkOverlap, |chunks| - 1)
    requires EndAt(|text|, chunkSize, chunkOverlap, |chunks| - 1) == |text|
    requires Stitch(chunks, chunkOverlap) == text
    ensures FixedResult(text, chunkSize, chunkOverlap, chunks)
  {
    ChunksAll(text, chunkSize, chunkOverlap, chunks);
    EndsInsideAll(|text|, chunkSize, chunkOverlap, |chunks| - 1);
    WellChunkedAll(chunks, chunkSize, chunkOverlap);
  }

  /** The splitter as evidently intended: the loop stops after the chunk that
      reaches the end of the text. For a chunk size larger than the overlap
      it terminates; its chunks are those of the source loop's iterations, in
      order, and only the last one reaches the end of the text; every chunk
      is non-empty and at most `chunkSize` long, each chunk begins with the
      last `chunkOverlap` characters of the one before, and dropping those
      repeats gives back the text. */
  method SplitTextFixed(text: string, chunkSize: int, chunkOverlap: int) returns (chunks: seq<string>)
    requires 0 <= chunkOverlap < chunkSize
    ensures text == [] ==> chunks == []
    ensures forall k :: 0 <= k < |chunks| ==> chunks[k] == ChunkAt(text, chunkSize, chunkOverlap, k)
    ensures forall k :: 0 <= k < |chunks| - 1 ==> EndAt(|text|, chunkSize, chunkOverlap, k) < |text|
    ensures text != [] ==> |chunks| >= 1 && EndAt(|text|, chunkSize, chunkOverlap, |chunks| - 1) == |text|
    ensures forall k :: 0 <= k < |chunks| ==> 0 < |chunks[k]| <= chunkSize
    ensures forall k :: 1 <= k < |chunks| ==> SharesOverlap(chunks[k - 1], chunks[k], chunkOverlap)
    ensures Stitch(chunks, chunkOverlap) == text
  {
    chunks := [];
    if text == [] {
      return;
    }
    var start := 0;
    while true
      invariant 0 <= start < |text| && FixedInvariant(text, chunkSize, chunkOverlap, chunks, start)
      decreases |text| - start
    {
      var end := start + chunkSize;
      if end > |text| {
        end := |text|;
      }
      FixedLoopStep(text, chunkSize, chunkOverlap, chunks, start, end);
      chunks := chunks + [text[start..end]];
      if end == |text| {
        return;
      }
      start := end - chunkOverlap;
    }
  }
}
