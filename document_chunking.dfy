/**
 * `DocumentProcessor._chunk_text`: every page whose text is long enough is
 * cleaned and split into sentences, and the sentences are gathered greedily
 * into chunks. When the next sentence would take the open chunk past the
 * chunk size, the chunk is closed and the next one starts with the sentences
 * of the closed chunk's tail (the overlap). Chunks keep their page's metadata
 * and are numbered from 0 within each page.
 *
 * `Accumulate` and `Chunks` state what the loops build; the methods
 * `ChunkText` and `ChunkSentences` run the loops and are proved to build it.
 */
module DocumentChunking {
  import opened Strings
  import opened DocumentProcessor

  /** One entry of `text_content`: a page's extracted text and where it comes from. */
  datatype PageText = PageText(text: string, pageNumber: int, documentId: int, fundId: int)

  /** One chunk dictionary of the result. */
  datatype Chunk = Chunk(text: string, pageNumber: int, documentId: int, fundId: int, chunkIndex: nat)

  /** Pages whose stripped text is shorter than this are not chunked. */
  const MinPageText := 50

  /** `not text or len(text.strip()) < 50` */
  predicate Skipped(page: PageText) {
    page.text == "" || |Strip(page.text)| < MinPageText
  }

  /** Whether a chunk carries a page's metadata. */
  predicate FromPage(c: Chunk, page: PageText) {
    c.pageNumber == page.pageNumber && c.documentId == page.documentId && c.fundId == page.fundId
  }

  // ---------------------------------------------------------------------------
  // The overlap

  /**
   * `chunk_text[-chunk_overlap:] if len(chunk_text) > chunk_overlap else chunk_text`:
   * the last `overlap` characters, or the whole text when it is not longer.
   * An overlap of 0 slices `[-0:]`, which is the whole text as well.
   */
  function OverlapText(text: string, overlap: nat): (r: string)
    ensures |r| <= |text| && r == text[|text| - |r|..]
    ensures |r| == if 0 < overlap < |text| then overlap else |text|
  {
    if |text| > overlap && overlap > 0 then text[|text| - overlap..] else text
  }

  /** With no overlap configured, the whole closed chunk is carried into the next one. */
  lemma ZeroOverlapCarriesAll(text: string)
    ensures OverlapText(text, 0) == text
  {
  }

  // ---------------------------------------------------------------------------
  // One page

  /** The state of the sentence loop: the chunk texts closed so far, `current_chunk` and `current_length`. */
  datatype Accumulator = Accumulator(closed: seq<string>, current: seq<string>, length: nat)

  /** `current_length + sentence_length > chunk_size and current_chunk` */
  predicate Closes(acc: Accumulator, sentence: string, size: int) {
    acc.length + |sentence| > size && acc.current != []
  }

  /** One turn of the sentence loop. */
  function Step(acc: Accumulator, sentence: string, size: int, overlap: nat): Accumulator {
    if Closes(acc, sentence, size) then
      var text := Join(" ", acc.current);
      var carry := OverlapText(text, overlap);
      Accumulator(acc.closed + [text], SplitIntoSentences(carry) + [sentence], |carry| + |sentence|)
    else
      Accumulator(acc.closed, acc.current + [sentence], acc.length + |sentence|)
  }

  /** The loop over the sentences, from an empty chunk. */
  function Accumulate(sentences: seq<string>, size: int, overlap: nat): Accumulator
    decreases |sentences|
  {
    if sentences == [] then Accumulator([], [], 0)
    else Step(Accumulate(sentences[..|sentences| - 1], size, overlap), sentences[|sentences| - 1], size, overlap)
  }

  /** The texts of one page's chunks: those the loop closed, then the chunk left open. */
  function ChunkTexts(sentences: seq<string>, size: int, overlap: nat): seq<string> {
    var acc := Accumulate(sentences, size, overlap);
    if acc.current != [] then acc.closed + [Join(" ", acc.current)] else acc.closed
  }

  /** Chunk dictionaries for a page's chunk texts, numbered in order. */
  function Label(texts: seq<string>, page: PageText): (r: seq<Chunk>)
    ensures |r| == |texts|
    ensures forall k :: 0 <= k < |r| ==> r[k] == Chunk(texts[k], page.pageNumber, page.documentId, page.fundId, k)
  {
    seq(|texts|, k requires 0 <= k < |texts| => Chunk(texts[k], page.pageNumber, page.documentId, page.fundId, k))
  }

  /** The chunks of one page. */
  function PageChunks(page: PageText, size: int, overlap: nat): (r: seq<Chunk>)
    ensures Skipped(page) ==> r == []
    ensures forall k :: 0 <= k < |r| ==> FromPage(r[k], page) && r[k].chunkIndex == k
  {
    if Skipped(page) then []
    else Label(ChunkTexts(SplitIntoSentences(CleanText(page.text)), size, overlap), page)
  }

  /** `_chunk_text(text_content)`: the chunks of every page, page after page. */
  function Chunks(pages: seq<PageText>, size: int, overlap: nat): seq<Chunk>
    decreases |pages|
  {
    if pages == [] then []
    else Chunks(pages[..|pages| - 1], size, overlap) + PageChunks(pages[|pages| - 1], size, overlap)
  }

  // ---------------------------------------------------------------------------
  // The loops

  /** `_chunk_text`: the loop over the pages. */
  method ChunkText(pages: seq<PageText>, size: int, overlap: nat) returns (chunks: seq<Chunk>)
    ensures chunks == Chunks(pages, size, overlap)
  {
    chunks := [];
    for p := 0 to |pages|
      invariant chunks == Chunks(pages[..p], size, overlap)
    {
      ChunksStep(pages, p, size, overlap);
      var page := pages[p];
      if page.text == "" || |Strip(page.text)| < MinPageText {
        continue;
      }
      var text := CleanText(page.text);
      var sentences := SplitIntoSentences(text);
      var pageChunks := ChunkSentences(sentences, page, size, overlap);
      chunks := chunks + pageChunks;
    }
    assert pages[..|pages|] == pages;
  }

  /** One more page adds that page's chunks. */
  lemma ChunksStep(pages: seq<PageText>, p: nat, size: int, overlap: nat)
    requires p < |pages|
    ensures Chunks(pages[..p + 1], size, overlap) == Chunks(pages[..p], size, overlap) + PageChunks(pages[p], size, overlap)
  {
    assert pages[..p + 1][..p] == pages[..p];
  }

  /** The loop over one page's sentences, with the chunk left open at the end. */
  method ChunkSentences(sentences: seq<string>, page: PageText, size: int, overlap: nat) returns (chunks: seq<Chunk>)
    ensures chunks == Label(ChunkTexts(sentences, size, overlap), page)
  {
    chunks := [];
    var current: seq<string> := [];
    var currentLength: nat := 0;
    var chunkIndex: nat := 0;
    for j := 0 to |sentences|
      invariant chunks == Label(Accumulate(sentences[..j], size, overlap).closed, page)
      invariant current == Accumulate(sentences[..j], size, overlap).current
      invariant currentLength == Accumulate(sentences[..j], size, overlap).length
      invariant chunkIndex == |Accumulate(sentences[..j], size, overlap).closed|
    {
      assert sentences[..j + 1][..j] == sentences[..j];
      ghost var acc := Accumulate(sentences[..j], size, overlap);
      var sentence := sentences[j];
      if currentLength + |sentence| > size && current != [] {
        var chunkText := Join(" ", current);
        LabelAppend(acc.closed, chunkText, page);
        chunks := chunks + [Chunk(chunkText, page.pageNumber, page.documentId, page.fundId, chunkIndex)];
        chunkIndex := chunkIndex + 1;
        var overlapText := OverlapText(chunkText, overlap);
        current := SplitIntoSentences(overlapText);
        currentLength := |overlapText|;
      }
      current := current + [sentence];
      currentLength := currentLength + |sentence|;
    }
    assert sentences[..|sentences|] == sentences;
    if current != [] {
      LabelAppend(Accumulate(sentences, size, overlap).closed, Join(" ", current), page);
      chunks := chunks + [Chunk(Join(" ", current), page.pageNumber, page.documentId, page.fundId, chunkIndex)];
    }
  }

  lemma LabelAppend(texts: seq<string>, t: string, page: PageText)
    ensures Label(texts + [t], page) == Label(texts, page) + [Chunk(t, page.pageNumber, page.documentId, page.fundId, |texts|)]
  {
  }

  // ---------------------------------------------------------------------------
  // Properties of the pages loop

  /** Pages are chunked independently and in order. */
  lemma {:induction false} ChunksAppend(a: seq<PageText>, b: seq<PageText>, size: int, overlap: nat)
    ensures Chunks(a + b, size, overlap) == Chunks(a, size, overlap) + Chunks(b, size, overlap)
    decreases |b|
  {
    if b == [] {
      assert a + b == a;
    } else {
      var b' := b[..|b| - 1];
      assert (a + b)[..|a + b| - 1] == a + b';
      assert (a + b)[|a + b| - 1] == b[|b| - 1];
      ChunksAppend(a, b', size, overlap);
      AppendAssociates(Chunks(a, size, overlap), Chunks(b', size, overlap), PageChunks(b[|b| - 1], size, overlap));
    }
  }

  /** Whether a chunk carries the metadata of one of the pages that were long enough to be chunked. */
  predicate FromSomePage(c: Chunk, pages: seq<PageText>) {
    exists j :: 0 <= j < |pages| && !Skipped(pages[j]) && FromPage(c, pages[j])
  }

  /** Every chunk carries the metadata of a page that was long enough to be chunked. */
  lemma {:induction false} ChunksFromPages(pages: seq<PageText>, size: int, overlap: nat)
    ensures forall i :: 0 <= i < |Chunks(pages, size, overlap)| ==> FromSomePage(Chunks(pages, size, overlap)[i], pages)
    decreases |pages|
  {
    if pages != [] {
      var n := |pages| - 1;
      var front := pages[..n];
      ChunksFromPages(front, size, overlap);
      var early := Chunks(front, size, overlap);
      var last := PageChunks(pages[n], size, overlap);
      assert Chunks(pages, size, overlap) == early + last;
      FromPagesStep(early, last, pages);
    }
  }

  /** The chunks of the earlier pages, then those of the last page, all carry some page's metadata. */
  lemma FromPagesStep(early: seq<Chunk>, last: seq<Chunk>, pages: seq<PageText>)
    requires pages != []
    requires forall i :: 0 <= i < |early| ==> FromSomePage(early[i], pages[..|pages| - 1])
    requires last != [] ==> !Skipped(pages[|pages| - 1])
    requires forall k :: 0 <= k < |last| ==> FromPage(last[k], pages[|pages| - 1])
    ensures forall i :: 0 <= i < |early + last| ==> FromSomePage((early + last)[i], pages)
  {
    var n := |pages| - 1;
    forall i | 0 <= i < |early + last| ensures FromSomePage((early + last)[i], pages) {
      if i < |early| {
        assert (early + last)[i] == early[i];
        FromSomePageExtend(early[i], pages[..n], pages);
      } else {
        assert (early + last)[i] == last[i - |early|];
        LastPageChunk(last[i - |early|], pages);
      }
    }
  }

  lemma FromSomePageExtend(c: Chunk, front: seq<PageText>, pages: seq<PageText>)
    requires |front| <= |pages| && front == pages[..|front|] && FromSomePage(c, front)
    ensures FromSomePage(c, pages)
  {
    var j :| 0 <= j < |front| && !Skipped(front[j]) && FromPage(c, front[j]);
    assert front[j] == pages[j];
  }

  lemma LastPageChunk(c: Chunk, pages: seq<PageText>)
    requires pages != [] && !Skipped(pages[|pages| - 1]) && FromPage(c, pages[|pages| - 1])
    ensures FromSomePage(c, pages)
  {
  }

  // ---------------------------------------------------------------------------
  // Properties of the sentence loop

  /** A chunk is closed exactly when the sentence would overflow a non-empty chunk; closed chunks never change. */
  lemma StepCloses(acc: Accumulator, sentence: string, size: int, overlap: nat)
    ensures var r := Step(acc, sentence, size, overlap);
      (|r.closed| == |acc.closed| + 1 <==> Closes(acc, sentence, size))
      && (|r.closed| == |acc.closed| || |r.closed| == |acc.closed| + 1)
      && r.closed[..|acc.closed|] == acc.closed
      && r.current != [] && r.current[|r.current| - 1] == sentence
  {
  }

  /**
   * A close saves the open chunk, restarts it from the sentences of its last
   * `overlap` characters and resets the length to that text's length; any
   * other turn appends the sentence and adds its length.
   */
  lemma StepRestarts(acc: Accumulator, sentence: string, size: int, overlap: nat)
    ensures var r := Step(acc, sentence, size, overlap);
      var carry := OverlapText(Join(" ", acc.current), overlap);
      Closes(acc, sentence, size) ==>
        r.closed == acc.closed + [Join(" ", acc.current)]
        && r.current == SplitIntoSentences(carry) + [sentence]
        && r.length == |carry| + |sentence|
    ensures var r := Step(acc, sentence, size, overlap);
      !Closes(acc, sentence, size) ==>
        r.closed == acc.closed && r.current == acc.current + [sentence] && r.length == acc.length + |sentence|
  {
  }

  /** The chunks closed after some sentences stay, unchanged, the first chunks of the page. */
  lemma {:induction false} ClosedPrefix(sentences: seq<string>, m: nat, size: int, overlap: nat)
    requires m <= |sentences|
    ensures |Accumulate(sentences[..m], size, overlap).closed| <= |Accumulate(sentences, size, overlap).closed|
    ensures Accumulate(sentences, size, overlap).closed[..|Accumulate(sentences[..m], size, overlap).closed|]
      == Accumulate(sentences[..m], size, overlap).closed
    decreases |sentences| - m
  {
    if m == |sentences| {
      assert sentences[..m] == sentences;
    } else {
      var n := |sentences| - 1;
      var front := sentences[..n];
      assert front[..m] == sentences[..m];
      ClosedPrefix(front, m, size, overlap);
      StepCloses(Accumulate(front, size, overlap), sentences[n], size, overlap);
    }
  }

  /** One chunk text per sentence at most, and at least one chunk as soon as there is a sentence. */
  lemma ChunkCount(sentences: seq<string>, size: int, overlap: nat)
    ensures |ChunkTexts(sentences, size, overlap)| <= |sentences|
    ensures |ChunkTexts(sentences, size, overlap)| == 0 <==> sentences == []
  {
    AccumulateShape(sentences, size, overlap);
  }

  /** After `n` sentences at most `n - 1` chunks are closed, and the open chunk is empty only before the first. */
  lemma {:induction false} AccumulateShape(sentences: seq<string>, size: int, overlap: nat)
    ensures Accumulate(sentences, size, overlap).current == [] <==> sentences == []
    ensures sentences != [] ==> |Accumulate(sentences, size, overlap).closed| < |sentences|
    decreases |sentences|
  {
    if sentences != [] {
      var n := |sentences| - 1;
      AccumulateShape(sentences[..n], size, overlap);
      StepCloses(Accumulate(sentences[..n], size, overlap), sentences[n], size, overlap);
    }
  }

  /** The total length of some sentences, separators not counted (the loop's `current_length`). */
  function SumLengths(ss: seq<string>): nat
    decreases |ss|
  {
    if ss == [] then 0 else SumLengths(ss[..|ss| - 1]) + |ss[|ss| - 1]|
  }

  /** While the sentences fit in one chunk, nothing is closed and all of them are in the open chunk. */
  lemma {:induction false} AccumulateFits(sentences: seq<string>, size: int, overlap: nat)
    requires SumLengths(sentences) <= size
    ensures Accumulate(sentences, size, overlap) == Accumulator([], sentences, SumLengths(sentences))
    decreases |sentences|
  {
    if sentences != [] {
      var n := |sentences| - 1;
      AccumulateFits(sentences[..n], size, overlap);
      assert sentences[..n] + [sentences[n]] == sentences;
    }
  }

  /** A page whose sentences fit in one chunk is one chunk: its sentences joined by spaces. */
  lemma OneChunkWhenFits(sentences: seq<string>, size: int, overlap: nat)
    requires sentences != [] && SumLengths(sentences) <= size
    ensures ChunkTexts(sentences, size, overlap) == [Join(" ", sentences)]
  {
    AccumulateFits(sentences, size, overlap);
  }

  predicate AllNonEmpty(ss: seq<string>) {
    forall k :: 0 <= k < |ss| ==> ss[k] != ""
  }

  /** The loop closes only non-empty chunks and keeps only non-empty sentences open. */
  lemma {:induction false} AccumulateNonEmpty(sentences: seq<string>, size: int, overlap: nat)
    requires AllNonEmpty(sentences)
    ensures AllNonEmpty(Accumulate(sentences, size, overlap).closed)
    ensures AllNonEmpty(Accumulate(sentences, size, overlap).current)
    decreases |sentences|
  {
    if sentences != [] {
      var n := |sentences| - 1;
      assert AllNonEmpty(sentences[..n]) by {
        forall k | 0 <= k < n ensures sentences[..n][k] != "" { assert sentences[..n][k] == sentences[k]; }
      }
      AccumulateNonEmpty(sentences[..n], size, overlap);
      var acc := Accumulate(sentences[..n], size, overlap);
      if Closes(acc, sentences[n], size) {
        JoinNonEmpty(" ", acc.current);
        var carry := OverlapText(Join(" ", acc.current), overlap);
        NonEmptyAppend(acc.closed, Join(" ", acc.current));
        NonEmptyAppend(SplitIntoSentences(carry), sentences[n]);
      } else {
        NonEmptyAppend(acc.current, sentences[n]);
      }
    }
  }

  lemma NonEmptyAppend(ss: seq<string>, t: string)
    requires AllNonEmpty(ss) && t != ""
    ensures AllNonEmpty(ss + [t])
  {
    forall k | 0 <= k < |ss + [t]| ensures (ss + [t])[k] != "" {
      if k < |ss| { assert (ss + [t])[k] == ss[k]; }
    }
  }

  /** Chunks built from non-empty sentences are non-empty. */
  lemma ChunksNonEmpty(sentences: seq<string>, size: int, overlap: nat)
    requires AllNonEmpty(sentences)
    ensures AllNonEmpty(ChunkTexts(sentences, size, overlap))
  {
    AccumulateNonEmpty(sentences, size, overlap);
    var acc := Accumulate(sentences, size, overlap);
    if acc.current != [] {
      JoinNonEmpty(" ", acc.current);
      NonEmptyAppend(acc.closed, Join(" ", acc.current));
    }
  }

  /** A sentence is in the open chunk or occurs in a closed one. */
  predicate Kept(x: string, acc: Accumulator) {
    x in acc.current || exists k :: 0 <= k < |acc.closed| && Contains(acc.closed[k], x)
  }

  /** No sentence is lost by a turn of the loop. */
  lemma StepKeeps(acc: Accumulator, x: string, sentence: string, size: int, overlap: nat)
    requires Kept(x, acc) || x == sentence
    ensures Kept(x, Step(acc, sentence, size, overlap))
  {
    var r := Step(acc, sentence, size, overlap);
    StepCloses(acc, sentence, size, overlap);
    if x == sentence {
      assert r.current[|r.current| - 1] == x;
    } else if x in acc.current {
      if Closes(acc, sentence, size) {
        var k :| 0 <= k < |acc.current| && acc.current[k] == x;
        JoinContainsPart(" ", acc.current, k);
        assert r.closed[|acc.closed|] == Join(" ", acc.current);
      } else {
        assert r.current == acc.current + [sentence];
      }
    } else {
      var k :| 0 <= k < |acc.closed| && Contains(acc.closed[k], x);
      assert r.closed[k] == acc.closed[k];
    }
  }

  /** Every sentence so far is kept. */
  lemma {:induction false} AccumulateKeeps(sentences: seq<string>, i: nat, size: int, overlap: nat)
    requires i < |sentences|
    ensures Kept(sentences[i], Accumulate(sentences, size, overlap))
    decreases |sentences|
  {
    var n := |sentences| - 1;
    var acc := Accumulate(sentences[..n], size, overlap);
    if i < n {
      AccumulateKeeps(sentences[..n], i, size, overlap);
      assert sentences[..n][i] == sentences[i];
    }
    StepKeeps(acc, sentences[i], sentences[n], size, overlap);
  }

  /** Every sentence of the page occurs in one of its chunks. */
  lemma SentenceInSomeChunk(sentences: seq<string>, i: nat, size: int, overlap: nat)
    requires i < |sentences|
    ensures exists k :: 0 <= k < |ChunkTexts(sentences, size, overlap)| && Contains(ChunkTexts(sentences, size, overlap)[k], sentences[i])
  {
    AccumulateKeeps(sentences, i, size, overlap);
    var acc := Accumulate(sentences, size, overlap);
    var texts := ChunkTexts(sentences, size, overlap);
    if sentences[i] in acc.current {
      var k :| 0 <= k < |acc.current| && acc.current[k] == sentences[i];
      JoinContainsPart(" ", acc.current, k);
      assert texts[|acc.closed|] == Join(" ", acc.current);
    } else {
      var k :| 0 <= k < |acc.closed| && Contains(acc.closed[k], sentences[i]);
      assert texts[k] == acc.closed[k];
    }
  }

  // ---------------------------------------------------------------------------
  // The overlap carried from chunk to chunk

  /** The sentences a closed chunk hands to the next one: those of its last `overlap` characters. */
  function Carried(text: string, overlap: nat): seq<string> {
    SplitIntoSentences(OverlapText(text, overlap))
  }

  /**
   * `chunk` starts with the text of the carried sentences and the space that
   * joins them to the next sentence; with nothing carried, it starts afresh.
   */
  predicate OpensWith(chunk: string, carried: seq<string>) {
    carried != [] ==> Join(" ", carried) + " " <= chunk
  }

  /** `Carried` for a fixed overlap, as a function value. */
  function CarryOf(overlap: nat): string -> seq<string> {
    t => Carried(t, overlap)
  }

  /** Chunk `k + 1` of `texts` opens with what `carry` takes from chunk `k`. */
  predicate LinkedAt(texts: seq<string>, k: nat, carry: string -> seq<string>)
    requires k + 1 < |texts|
  {
    OpensWith(texts[k + 1], carry(texts[k]))
  }

  /**
   * What the sentence loop keeps true of the overlap, for `carry` taken as
   * `CarryOf(overlap)`: each closed chunk after the first begins with what the
   * chunk before it carried, and the open chunk, once a chunk has been closed,
   * begins with what the last closed chunk carried and holds at least one
   * sentence more.
   */
  predicate OverlapLinked(acc: Accumulator, carry: string -> seq<string>) {
    (forall k :: 0 <= k < |acc.closed| - 1 ==> LinkedAt(acc.closed, k, carry))
    && (acc.closed != [] ==>
      var c := carry(acc.closed[|acc.closed| - 1]);
      |c| < |acc.current| && acc.current[..|c|] == c)
  }

  /** Each turn of the loop keeps the overlap linked. */
  lemma StepLinks(acc: Accumulator, sentence: string, size: int, overlap: nat)
    requires OverlapLinked(acc, CarryOf(overlap))
    ensures OverlapLinked(Step(acc, sentence, size, overlap), CarryOf(overlap))
  {
    StepRestarts(acc, sentence, size, overlap);
    var r := Step(acc, sentence, size, overlap);
    if Closes(acc, sentence, size) {
      var text := Join(" ", acc.current);
      assert CarryOf(overlap)(text) == Carried(text, overlap);
      CloseKeepsLinked(acc, r, sentence, CarryOf(overlap));
    } else {
      AppendKeepsLinked(acc, r, sentence, CarryOf(overlap));
    }
  }

  lemma CloseKeepsLinked(acc: Accumulator, r: Accumulator, sentence: string, carry: string -> seq<string>)
    requires OverlapLinked(acc, carry)
    requires r.closed == acc.closed + [Join(" ", acc.current)]
    requires r.current == carry(Join(" ", acc.current)) + [sentence]
    ensures OverlapLinked(r, carry)
  {
    var text := Join(" ", acc.current);
    if acc.closed != [] {
      OpenChunkBegins(acc, carry);
    }
    ClosedLinks(acc.closed, text, carry);
    var c := carry(text);
    assert r.closed[|r.closed| - 1] == text;
    PrefixOfAppend(c, [sentence], |c|);
  }

  lemma AppendKeepsLinked(acc: Accumulator, r: Accumulator, sentence: string, carry: string -> seq<string>)
    requires OverlapLinked(acc, carry)
    requires r.closed == acc.closed && r.current == acc.current + [sentence]
    ensures OverlapLinked(r, carry)
  {
    if acc.closed != [] {
      var c := carry(acc.closed[|acc.closed| - 1]);
      PrefixOfAppend(acc.current, [sentence], |c|);
    }
  }

  /** Closing a chunk that opens with what the last closed chunk carried keeps the closed chunks linked. */
  lemma ClosedLinks(closed: seq<string>, text: string, carry: string -> seq<string>)
    requires forall k :: 0 <= k < |closed| - 1 ==> LinkedAt(closed, k, carry)
    requires closed != [] ==> OpensWith(text, carry(closed[|closed| - 1]))
    ensures var all := closed + [text];
      forall k :: 0 <= k < |all| - 1 ==> LinkedAt(all, k, carry)
  {
    forall k | 0 <= k < |closed| ensures LinkedAt(closed + [text], k, carry) {
      if k + 1 < |closed| {
        LinkedAtSame(closed, k, closed + [text], k, carry);
      } else {
        LinkedAtLast(closed, text, k, carry);
      }
    }
  }

  lemma LinkedAtSame(a: seq<string>, k: nat, b: seq<string>, j: nat, carry: string -> seq<string>)
    requires k + 1 < |a| && j + 1 < |b| && a[k] == b[j] && a[k + 1] == b[j + 1] && LinkedAt(a, k, carry)
    ensures LinkedAt(b, j, carry)
  {
  }

  lemma LinkedAtLast(closed: seq<string>, text: string, k: nat, carry: string -> seq<string>)
    requires k + 1 == |closed| && OpensWith(text, carry(closed[k]))
    ensures LinkedAt(closed + [text], k, carry)
  {
    var all := closed + [text];
    assert all[k] == closed[k] && all[k + 1] == text;
  }

  lemma PrefixOfAppend<T>(a: seq<T>, b: seq<T>, j: nat)
    requires j <= |a|
    ensures (a + b)[..j] == a[..j]
  {
  }

  /** Once a chunk is closed, the open chunk's text begins with what the last closed chunk carried. */
  lemma OpenChunkBegins(acc: Accumulator, carry: string -> seq<string>)
    requires OverlapLinked(acc, carry) && acc.closed != []
    ensures OpensWith(Join(" ", acc.current), carry(acc.closed[|acc.closed| - 1]))
  {
    PrefixOpens(acc.current, carry(acc.closed[|acc.closed| - 1]));
  }

  /** Parts that start with `c` and have more join to a text that opens with `c`. */
  lemma PrefixOpens(parts: seq<string>, c: seq<string>)
    requires |c| < |parts| && parts[..|c|] == c
    ensures OpensWith(Join(" ", parts), c)
  {
    if c != [] {
      var rest := parts[|c|..];
      assert parts == c + rest;
      JoinPrefix(" ", c, rest);
    }
  }

  lemma {:induction false} AccumulateLinked(sentences: seq<string>, size: int, overlap: nat)
    ensures OverlapLinked(Accumulate(sentences, size, overlap), CarryOf(overlap))
    decreases |sentences|
  {
    if sentences != [] {
      var n := |sentences| - 1;
      AccumulateLinked(sentences[..n], size, overlap);
      StepLinks(Accumulate(sentences[..n], size, overlap), sentences[n], size, overlap);
    }
  }

  /**
   * Context overlap: every chunk of a page after the first starts with the
   * sentences of the last `overlap` characters of the chunk before it,
   * joined by spaces, and a space before the new sentences.
   */
  lemma ChunksCarryOverlap(sentences: seq<string>, size: int, overlap: nat)
    ensures var texts := ChunkTexts(sentences, size, overlap);
      forall k :: 0 <= k < |texts| - 1 ==> OpensWith(texts[k + 1], Carried(texts[k], overlap))
  {
    var acc := Accumulate(sentences, size, overlap);
    AccumulateLinked(sentences, size, overlap);
    AccumulateShape(sentences, size, overlap);
    if acc.current != [] {
      if acc.closed != [] {
        OpenChunkBegins(acc, CarryOf(overlap));
      }
      ClosedLinks(acc.closed, Join(" ", acc.current), CarryOf(overlap));
    }
    var texts := ChunkTexts(sentences, size, overlap);
    forall k | 0 <= k < |texts| - 1 ensures OpensWith(texts[k + 1], Carried(texts[k], overlap)) {
      assert LinkedAt(texts, k, CarryOf(overlap));
      assert CarryOf(overlap)(texts[k]) == Carried(texts[k], overlap);
    }
  }
}
