/** How a list of overlapping chunks covers a text, and the states of the
    corrected splitting loop described with it. */
module ChunkCover {
  import opened PythonOps
  import opened DocumentProcessors

  /** The text the chunks cover once the overlap that each later chunk
      repeats from its predecessor is dropped. */
  function Stitch(chunks: seq<string>, overlap: nat): string
  {
    if chunks == [] then ""
    else if |chunks| == 1 then chunks[0]
    else
      var last := chunks[|chunks| - 1];
      Stitch(chunks[..|chunks| - 1], overlap) + (if overlap <= |last| then last[overlap..] else "")
  }

  /** Adding one chunk to the stitched text adds it without its overlap. */
  lemma StitchAppend(chunks: seq<string>, overlap: nat, c: string)
    ensures Stitch(chunks + [c], overlap)
      == if chunks == [] then c else Stitch(chunks, overlap) + (if overlap <= |c| then c[overlap..] else "")
  {
    assert (chunks + [c])[..|chunks|] == chunks;
  }

  /** `next` begins with the last `overlap` characters of `prev` and goes on
      beyond them. */
  predicate SharesOverlap(prev: string, next: string, overlap: nat)
  {
    overlap < |next| && overlap <= |prev| && next[..overlap] == prev[|prev| - overlap..]
  }

  /** Every chunk is non-empty and at most `chunkSize` long, and each chunk
      shares the overlap with the one before it. */
  predicate WellChunked(chunks: seq<string>, chunkSize: int, overlap: nat)
  {
    chunks == []
    || (var n := |chunks|;
        WellChunked(chunks[..n - 1], chunkSize, overlap)
        && 0 < |chunks[n - 1]| <= chunkSize
        && (n > 1 ==> SharesOverlap(chunks[n - 2], chunks[n - 1], overlap)))
  }

  lemma {:induction false} WellChunkedAll(chunks: seq<string>, chunkSize: int, overlap: nat)
    requires WellChunked(chunks, chunkSize, overlap)
    ensures forall k :: 0 <= k < |chunks| ==> 0 < |chunks[k]| <= chunkSize
    ensures forall k :: 1 <= k < |chunks| ==> SharesOverlap(chunks[k - 1], chunks[k], overlap)
  {
    if chunks != [] {
      var init := chunks[..|chunks| - 1];
      WellChunkedAll(init, chunkSize, overlap);
      assert forall k :: 0 <= k < |init| ==> init[k] == chunks[k];
    }
  }

  /** How far the chunks taken so far cover the text when the next chunk
      starts at `start`: they are well formed, the last one ends
      `chunkOverlap` characters past `start`, and stitching them gives the
      text up to there. */
  ghost predicate FixedProgress(text: string, chunkSize: int, chunkOverlap: nat, chunks: seq<string>, start: int)
  {
    WellChunked(chunks, chunkSize, chunkOverlap)
    && (chunks == [] ==> start == 0 && Stitch(chunks, chunkOverlap) == [])
    && (chunks != [] ==>
          chunkSize <= start + chunkOverlap < |text|
          && chunks[|chunks| - 1] == text[start + chunkOverlap - chunkSize..start + chunkOverlap]
          && Stitch(chunks, chunkOverlap) == text[..start + chunkOverlap])
  }

  /** Everything the corrected loop keeps true before each iteration: it
      has so far taken the source loop's chunks from the source loop's
      starts, and none of them reached the end of the text. */
  ghost predicate FixedInvariant(text: string, chunkSize: int, chunkOverlap: int, chunks: seq<string>, start: int)
  {
    0 <= start && start == StartAt(|text|, chunkSize, chunkOverlap, |chunks|)
    && chunks == Chunks(text, chunkSize, chunkOverlap, |chunks|)
    && EndsInside(|text|, chunkSize, chunkOverlap, |chunks|)
  }

  /** What the corrected splitter promises of its chunks for a non-empty
      text: they are the source loop's chunks, only the last reaches the end
      of the text, each is non-empty and at most `chunkSize` long, each
      shares the overlap with the one before, and they stitch back to the
      text. */
  ghost predicate FixedResult(text: string, chunkSize: int, chunkOverlap: int, chunks: seq<string>)
  {
    && 0 <= chunkOverlap
    && |chunks| >= 1
    && (forall k :: 0 <= k < |chunks| ==> chunks[k] == ChunkAt(text, chunkSize, chunkOverlap, k))
    && (forall k :: 0 <= k < |chunks| - 1 ==> EndAt(|text|, chunkSize, chunkOverlap, k) < |text|)
    && EndAt(|text|, chunkSize, chunkOverlap, |chunks| - 1) == |text|
    && (forall k :: 0 <= k < |chunks| ==> 0 < |chunks[k]| <= chunkSize)
    && (forall k :: 1 <= k < |chunks| ==> SharesOverlap(chunks[k - 1], chunks[k], chunkOverlap))
    && Stitch(chunks, chunkOverlap) == text
  }
}
