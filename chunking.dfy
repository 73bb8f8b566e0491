/**
 * `get_late_chunked_text` (app.py): every retrieved document's cleaned text
 * is cut into windows of `chunk_size` code points, the k-th window starting
 * at `k * (chunk_size - chunk_overlap)`, and all windows of all documents go
 * into one list, document by document.
 *
 * A document is given by its page content. `Run.Diverges` stands for the
 * source's loop never ending, which happens exactly when a document's cleaned
 * text is non-empty and the stride `chunk_size - chunk_overlap` is not
 * positive.
 */
module Chunking {
  import opened PyStr
  import opened Cleaning
  import opened Seqs

  datatype Run = Done(chunks: seq<Text>) | Diverges

  function Min(a: int, b: int): int {
    if a <= b then a else b
  }

  /** How Python resolves the bound `i` of a slice of a sequence of length `n`. */
  function SliceBound(i: int, n: nat): (b: nat)
    ensures b <= n
    ensures 0 <= i <= n ==> b == i
    ensures i >= n ==> b == n
    ensures i < 0 ==> b == (if i + n < 0 then 0 else i + n)
  {
    if i < 0 then (if i + n < 0 then 0 else i + n)
    else if i > n then n
    else i
  }

  /** Python's `s[i:j]`: a negative bound counts from the end, bounds are clamped. */
  function Slice(s: Text, i: int, j: int): (r: Text)
    ensures |r| <= |s|
    ensures 0 <= i <= |s| && i <= j ==> r == s[i..Min(j, |s|)]
  {
    var lo, hi := SliceBound(i, |s|), SliceBound(j, |s|);
    if lo < hi then s[lo..hi] else []
  }

  /** The stride between the starts of two consecutive windows. */
  function Stride(chunkSize: int, chunkOverlap: int): int {
    chunkSize - chunkOverlap
  }

  /** The windows of `size` code points starting at `from`, `from + step`, ... for every start inside `text`. */
  function Windows(text: Text, from: nat, size: int, step: int): seq<Text>
    requires step > 0
    decreases |text| - from
  {
    if from < |text| then [Slice(text, from, from + size)] + Windows(text, from + step, size, step)
    else []
  }

  /** The chunks of one document whose cleaned text is `text`. */
  function DocChunks(text: Text, chunkSize: int, chunkOverlap: int): seq<Text>
    requires text != [] ==> Stride(chunkSize, chunkOverlap) > 0
  {
    if text == [] then [] else Windows(text, 0, chunkSize, Stride(chunkSize, chunkOverlap))
  }

  /** The cleaned text of every document, in order. */
  function Cleaned(docs: seq<Text>): seq<Text> {
    Map(CleanText, docs)
  }

  /** No document has any text left after cleaning. */
  predicate AllBlank(texts: seq<Text>) {
    forall i :: 0 <= i < |texts| ==> texts[i] == []
  }

  /** The source's loop ends: the stride is positive, or there is nothing to cut. */
  predicate Terminates(texts: seq<Text>, chunkSize: int, chunkOverlap: int) {
    Stride(chunkSize, chunkOverlap) > 0 || AllBlank(texts)
  }

  /** The list `get_late_chunked_text` returns when its loop ends, given the cleaned texts. */
  function Chunked(texts: seq<Text>, chunkSize: int, chunkOverlap: int): seq<Text>
    requires Terminates(texts, chunkSize, chunkOverlap)
    decreases |texts|
  {
    if texts == [] then []
    else
      var init := texts[..|texts| - 1];
      assert forall i :: 0 <= i < |init| ==> init[i] == texts[i];
      Chunked(init, chunkSize, chunkOverlap) + DocChunks(texts[|texts| - 1], chunkSize, chunkOverlap)
  }

  /** `get_late_chunked_text(retrieved_docs, chunk_size, chunk_overlap)`. */
  method GetLateChunkedText(docs: seq<Text>, chunkSize: int, chunkOverlap: int) returns (r: Run)
    ensures r.Diverges? <==> !Terminates(Cleaned(docs), chunkSize, chunkOverlap)
    ensures r.Done? ==> Terminates(Cleaned(docs), chunkSize, chunkOverlap) && r.chunks == Chunked(Cleaned(docs), chunkSize, chunkOverlap)
  {
    var chunked: seq<Text> := [];
    var i := 0;
    while i < |docs|
      invariant 0 <= i <= |docs|
      invariant Terminates(Cleaned(docs[..i]), chunkSize, chunkOverlap)
      invariant chunked == Chunked(Cleaned(docs[..i]), chunkSize, chunkOverlap)
    {
      var text := CleanText(docs[i]);
      if text != [] && chunkSize - chunkOverlap <= 0 {
        // `start` never grows, so `start < len(text)` holds forever.
        NotTerminating(docs, i, chunkSize, chunkOverlap);
        return Diverges;
      }
      var more := AppendWindows(chunked, text, chunkSize, chunkOverlap);
      MapSnoc(CleanText, docs, i);
      ChunkedPush(Cleaned(docs[..i]), text, chunkSize, chunkOverlap);
      chunked := more;
      i := i + 1;
    }
    ConcatEmpty(docs);
    return Done(chunked);
  }

  /**
   * The inner `while start < len(text)` loop: append the chunks of one
   * document's cleaned text to `chunked`.
   */
  method AppendWindows(chunked: seq<Text>, text: Text, chunkSize: int, chunkOverlap: int) returns (out: seq<Text>)
    requires text != [] ==> Stride(chunkSize, chunkOverlap) > 0
    ensures out == chunked + DocChunks(text, chunkSize, chunkOverlap)
  {
    out := chunked;
    if text == [] {
      ConcatEmpty(out);
      return;
    }
    var step := chunkSize - chunkOverlap;
    var start: nat := 0;
    while start < |text|
      invariant out + Windows(text, start, chunkSize, step) == chunked + DocChunks(text, chunkSize, chunkOverlap)
      decreases |text| - start
    {
      var window := Slice(text, start, start + chunkSize);
      MoveHead(out, window, Windows(text, start + step, chunkSize, step), Windows(text, start, chunkSize, step));
      out := out + [window];
      start := start + step;
    }
    ConcatEmpty(out);
  }

  lemma NotTerminating(docs: seq<Text>, i: nat, chunkSize: int, chunkOverlap: int)
    requires i < |docs| && CleanText(docs[i]) != [] && Stride(chunkSize, chunkOverlap) <= 0
    ensures !Terminates(Cleaned(docs), chunkSize, chunkOverlap)
  {
    MapAt(CleanText, docs, i);
  }

  /** One more document appends that document's chunks and nothing else. */
  lemma ChunkedPush(texts: seq<Text>, text: Text, chunkSize: int, chunkOverlap: int)
    requires Terminates(texts, chunkSize, chunkOverlap)
    requires text != [] ==> Stride(chunkSize, chunkOverlap) > 0
    ensures Terminates(texts + [text], chunkSize, chunkOverlap)
    ensures Chunked(texts + [text], chunkSize, chunkOverlap)
         == Chunked(texts, chunkSize, chunkOverlap) + DocChunks(text, chunkSize, chunkOverlap)
  {
    var all := texts + [text];
    assert all[..|texts|] == texts;
    if Stride(chunkSize, chunkOverlap) <= 0 {
      forall k | 0 <= k < |all| ensures all[k] == [] {
        if k < |texts| {
          assert all[k] == texts[k];
        }
      }
    }
  }

  /** Taking one more document appends that document's chunks and nothing else. */
  lemma ChunkedSnoc(texts: seq<Text>, i: nat, chunkSize: int, chunkOverlap: int)
    requires i < |texts|
    requires Terminates(texts[..i], chunkSize, chunkOverlap)
    requires texts[i] != [] ==> Stride(chunkSize, chunkOverlap) > 0
    ensures Terminates(texts[..i + 1], chunkSize, chunkOverlap)
    ensures Chunked(texts[..i + 1], chunkSize, chunkOverlap)
         == Chunked(texts[..i], chunkSize, chunkOverlap) + DocChunks(texts[i], chunkSize, chunkOverlap)
  {
    TakeSnoc(texts, i);
    ChunkedPush(texts[..i], texts[i], chunkSize, chunkOverlap);
  }

  // ---------------------------------------------------------------------
  // Arithmetic
  // ---------------------------------------------------------------------

  lemma MulAtLeast(k: int, d: int)
    requires k >= 1 && d > 0
    ensures k * d >= d
  {
  }

  lemma MulNonNegative(k: nat, d: int)
    requires d > 0
    ensures k * d >= 0
  {
  }

  lemma DivUnique(a: int, d: int, q: int, r: int)
    requires d > 0 && 0 <= r < d && a == q * d + r
    ensures a / d == q
  {
    var q', r' := a / d, a % d;
    assert (q - q') * d == r' - r;
    if q > q' {
      MulAtLeast(q - q', d);
    } else if q < q' {
      MulAtLeast(q' - q, d);
    }
  }

  lemma DivShift(x: int, d: int)
    requires d > 0
    ensures (x + d) / d == x / d + 1
  {
    DivUnique(x + d, d, x / d + 1, x % d);
  }

  // ---------------------------------------------------------------------
  // One document
  // ---------------------------------------------------------------------

  /** `k * step`, built up one step at a time as the source's `start` grows. */
  function Offset(k: nat, step: int): (r: int)
    requires step > 0
    ensures r >= 0 && (k > 0 ==> r >= step)
  {
    if k == 0 then 0 else Offset(k - 1, step) + step
  }

  lemma {:induction false} OffsetIsProduct(k: nat, step: int)
    requires step > 0
    ensures Offset(k, step) == k * step
  {
    if k > 0 {
      OffsetIsProduct(k - 1, step);
      assert (k - 1) * step + step == k * step;
    }
  }

  /**
   * The k-th window exists exactly when its start `from + k * step` lies
   * inside the text, and it is the slice beginning there.
   */
  lemma {:induction false} WindowAt(text: Text, from: nat, size: int, step: int, k: nat)
    requires step > 0
    ensures k < |Windows(text, from, size, step)| <==> from + Offset(k, step) < |text|
    ensures k < |Windows(text, from, size, step)| ==>
      Windows(text, from, size, step)[k] == Slice(text, from + Offset(k, step), from + Offset(k, step) + size)
    decreases k
  {
    if from < |text| {
      var first, later := Slice(text, from, from + size), Windows(text, from + step, size, step);
      assert Windows(text, from, size, step) == [first] + later;
      ConsParts(first, later);
      if k > 0 {
        WindowAt(text, from + step, size, step, k - 1);
        assert from + Offset(k, step) == (from + step) + Offset(k - 1, step);
      }
    }
  }

  /** A slice that starts inside the text is non-empty and as long as the text allows. */
  lemma SliceInside(s: Text, i: int, j: int)
    requires 0 <= i < |s| && i < j
    ensures Slice(s, i, j) == s[i..Min(j, |s|)]
    ensures |Slice(s, i, j)| == Min(j - i, |s| - i)
    ensures 0 < |Slice(s, i, j)| <= j - i
  {
  }

  /** There are `ceil((len(text) - from) / step)` windows. */
  lemma {:induction false} WindowCount(text: Text, from: nat, size: int, step: int)
    requires step > 0
    ensures |Windows(text, from, size, step)| == if from < |text| then (|text| - from + step - 1) / step else 0
    decreases |text| - from
  {
    if from < |text| {
      WindowCount(text, from + step, size, step);
      var m := |text| - from;
      if from + step < |text| {
        DivShift(m - 1, step);
      } else {
        DivUnique(m + step - 1, step, 1, m - 1);
      }
    }
  }

  /**
   * The k-th chunk of a document exists exactly when its start
   * `k * (chunk_size - chunk_overlap)` lies inside the cleaned text, and it
   * is `text[start : start + chunk_size]`.
   */
  lemma DocChunkAt(text: Text, chunkSize: int, chunkOverlap: int, k: nat)
    requires Stride(chunkSize, chunkOverlap) > 0
    ensures k < |DocChunks(text, chunkSize, chunkOverlap)| <==> k * Stride(chunkSize, chunkOverlap) < |text|
    ensures k < |DocChunks(text, chunkSize, chunkOverlap)| ==>
      var start := k * Stride(chunkSize, chunkOverlap);
      DocChunks(text, chunkSize, chunkOverlap)[k] == Slice(text, start, start + chunkSize)
  {
    var step := Stride(chunkSize, chunkOverlap);
    OffsetIsProduct(k, step);
    if text != [] {
      WindowAt(text, 0, chunkSize, step, k);
    }
  }

  /**
   * For a positive `chunk_size` a chunk is never empty, never longer than
   * `chunk_size`, and exactly `min(chunk_size, len(text) - start)` long.
   */
  lemma DocChunkShape(text: Text, chunkSize: int, chunkOverlap: int, k: nat)
    requires Stride(chunkSize, chunkOverlap) > 0 && chunkSize > 0
    requires k < |DocChunks(text, chunkSize, chunkOverlap)|
    ensures var start := k * Stride(chunkSize, chunkOverlap); var chunk := DocChunks(text, chunkSize, chunkOverlap)[k];
      && 0 <= start < |text|
      && chunk == text[start..Min(start + chunkSize, |text|)]
      && |chunk| == Min(chunkSize, |text| - start)
      && 0 < |chunk| <= chunkSize
  {
    DocChunkAt(text, chunkSize, chunkOverlap, k);
    var step := Stride(chunkSize, chunkOverlap);
    var start := k * step;
    MulNonNegative(k, step);
    SliceInside(text, start, start + chunkSize);
  }

  /**
   * A document yields `ceil(len(text) / (chunk_size - chunk_overlap))` chunks,
   * so none when its cleaned text is empty.
   */
  lemma DocChunkCount(text: Text, chunkSize: int, chunkOverlap: int)
    requires Stride(chunkSize, chunkOverlap) > 0
    ensures var step := Stride(chunkSize, chunkOverlap);
      |DocChunks(text, chunkSize, chunkOverlap)| == (|text| + step - 1) / step
    ensures text == [] ==> DocChunks(text, chunkSize, chunkOverlap) == []
  {
    var step := Stride(chunkSize, chunkOverlap);
    if text == [] {
      DivUnique(step - 1, step, 0, step - 1);
    } else {
      WindowCount(text, 0, chunkSize, step);
    }
  }

  /**
   * With `0 <= chunk_overlap < chunk_size`, every character of the cleaned
   * text lies inside some chunk, at the matching position.
   */
  lemma DocChunksCover(text: Text, chunkSize: int, chunkOverlap: int, i: nat)
    requires 0 <= chunkOverlap < chunkSize
    requires i < |text|
    ensures exists k ::
              && 0 <= k < |DocChunks(text, chunkSize, chunkOverlap)|
              && k * Stride(chunkSize, chunkOverlap) <= i
              && i < k * Stride(chunkSize, chunkOverlap) + |DocChunks(text, chunkSize, chunkOverlap)[k]|
              && DocChunks(text, chunkSize, chunkOverlap)[k][i - k * Stride(chunkSize, chunkOverlap)] == text[i]
  {
    var step := Stride(chunkSize, chunkOverlap);
    var k := i / step;
    DivFloor(i, step);
    DocChunkAt(text, chunkSize, chunkOverlap, k);
    DocChunkShape(text, chunkSize, chunkOverlap, k);
    var start := k * step;
    var chunk := DocChunks(text, chunkSize, chunkOverlap)[k];
    assert start <= i < start + |chunk|;
    assert chunk[i - start] == text[i];
  }

  lemma DivFloor(a: int, d: int)
    requires d > 0
    ensures (a / d) * d <= a < (a / d) * d + d
  {
  }

  // ---------------------------------------------------------------------
  // All documents
  // ---------------------------------------------------------------------

  lemma TerminatesSplit(a: seq<Text>, b: seq<Text>, chunkSize: int, chunkOverlap: int)
    requires Terminates(a + b, chunkSize, chunkOverlap)
    ensures Terminates(a, chunkSize, chunkOverlap) && Terminates(b, chunkSize, chunkOverlap)
  {
    if Stride(chunkSize, chunkOverlap) <= 0 {
      assert forall i :: 0 <= i < |a| ==> a[i] == (a + b)[i];
      assert forall i :: 0 <= i < |b| ==> b[i] == (a + b)[|a| + i];
    }
  }

  /**
   * The documents are chunked one after the other: the chunks of `a + b`
   * are those of `a` followed by those of `b`, nothing added, nothing
   * reordered.
   */
  lemma {:induction false} ChunkedAppend(a: seq<Text>, b: seq<Text>, chunkSize: int, chunkOverlap: int)
    requires Terminates(a + b, chunkSize, chunkOverlap)
    ensures Terminates(a, chunkSize, chunkOverlap) && Terminates(b, chunkSize, chunkOverlap)
    ensures Chunked(a + b, chunkSize, chunkOverlap) == Chunked(a, chunkSize, chunkOverlap) + Chunked(b, chunkSize, chunkOverlap)
    decreases |b|
  {
    TerminatesSplit(a, b, chunkSize, chunkOverlap);
    if b == [] {
      ConcatEmpty(a);
    } else {
      var init, last := b[..|b| - 1], b[|b| - 1];
      AppendSnoc(a, b);
      TerminatesSplit(a + init, [last], chunkSize, chunkOverlap);
      ChunkedAppend(a, init, chunkSize, chunkOverlap);
      ConcatAssoc(Chunked(a, chunkSize, chunkOverlap), Chunked(init, chunkSize, chunkOverlap),
                  DocChunks(last, chunkSize, chunkOverlap));
    }
  }

  /**
   * The k-th chunk of document `d` sits in the result right after the
   * chunks of the documents before it.
   */
  lemma ChunkedAt(texts: seq<Text>, chunkSize: int, chunkOverlap: int, d: nat, k: nat)
    requires Terminates(texts, chunkSize, chunkOverlap)
    requires d < |texts|
    requires texts[d] != [] ==> Stride(chunkSize, chunkOverlap) > 0
    requires k < |DocChunks(texts[d], chunkSize, chunkOverlap)|
    ensures Terminates(texts[..d], chunkSize, chunkOverlap)
    ensures var before := |Chunked(texts[..d], chunkSize, chunkOverlap)|;
      && before + k < |Chunked(texts, chunkSize, chunkOverlap)|
      && Chunked(texts, chunkSize, chunkOverlap)[before + k] == DocChunks(texts[d], chunkSize, chunkOverlap)[k]
  {
    var pre, post := texts[..d + 1], texts[d + 1..];
    SplitAt(texts, d + 1);
    ChunkedAppend(pre, post, chunkSize, chunkOverlap);
    TakeSnoc(texts, d);
    TerminatesSplit(texts[..d], [texts[d]], chunkSize, chunkOverlap);
    ChunkedSnoc(texts, d, chunkSize, chunkOverlap);
    IndexInMiddle(Chunked(texts[..d], chunkSize, chunkOverlap), DocChunks(texts[d], chunkSize, chunkOverlap),
                  Chunked(post, chunkSize, chunkOverlap), k);
  }

  /** `ceil(n / d)`, counted as the number of steps of `d` that start below `n`. */
  function CeilDiv(n: int, d: int): (r: nat)
    requires d > 0
    decreases n
  {
    if n <= 0 then 0 else 1 + CeilDiv(n - d, d)
  }

  lemma {:induction false} CeilDivIsDivision(n: nat, d: int)
    requires d > 0
    ensures CeilDiv(n, d) == (n + d - 1) / d
    decreases n
  {
    if n > 0 {
      if n - d > 0 {
        CeilDivIsDivision(n - d, d);
        DivShift(n - 1, d);
      } else {
        DivUnique(n + d - 1, d, 1, n - 1);
      }
    } else {
      DivUnique(d - 1, d, 0, d - 1);
    }
  }

  /** The sum over the documents of `ceil(len(text) / stride)`. */
  function ChunkTotal(texts: seq<Text>, chunkSize: int, chunkOverlap: int): nat
    requires Stride(chunkSize, chunkOverlap) > 0
  {
    if texts == [] then 0
    else ChunkTotal(texts[..|texts| - 1], chunkSize, chunkOverlap) + CeilDiv(|texts[|texts| - 1]|, Stride(chunkSize, chunkOverlap))
  }

  /** With a positive stride, each document contributes `ceil(len(text) / stride)` chunks. */
  lemma {:induction false} ChunkedCount(texts: seq<Text>, chunkSize: int, chunkOverlap: int)
    requires Stride(chunkSize, chunkOverlap) > 0
    ensures |Chunked(texts, chunkSize, chunkOverlap)| == ChunkTotal(texts, chunkSize, chunkOverlap)
    decreases |texts|
  {
    if texts != [] {
      var init, text := texts[..|texts| - 1], texts[|texts| - 1];
      ChunkedCount(init, chunkSize, chunkOverlap);
      DocChunkCount(text, chunkSize, chunkOverlap);
      CeilDivIsDivision(|text|, Stride(chunkSize, chunkOverlap));
    }
  }

  // ---------------------------------------------------------------------
  // The default arguments
  // ---------------------------------------------------------------------

  /** The default `chunk_size` and `chunk_overlap` of `get_late_chunked_text`. */
  const DefaultChunkSize: int := 1000
  const DefaultChunkOverlap: int := 100

  /**
   * Called with its default arguments, the chunker always finishes, and each
   * document contributes `ceil(len(text) / 900)` chunks.
   */
  lemma DefaultsTerminate(docs: seq<Text>)
    ensures Stride(DefaultChunkSize, DefaultChunkOverlap) == 900
    ensures Terminates(Cleaned(docs), DefaultChunkSize, DefaultChunkOverlap)
    ensures |Chunked(Cleaned(docs), DefaultChunkSize, DefaultChunkOverlap)|
         == ChunkTotal(Cleaned(docs), DefaultChunkSize, DefaultChunkOverlap)
  {
    ChunkedCount(Cleaned(docs), DefaultChunkSize, DefaultChunkOverlap);
  }
}
