/**
 * Properties of the chunks and chunk records that `ChunkSpec` defines: where
 * each window lies, how long it is, how neighbours overlap, how the text is
 * recovered from its chunks, and where each record comes from.
 */
module ChunkProperties {
  import opened Decimal
  import opened Records
  import opened ChunkSpec

  /* Unfolding `ChunksFrom` one window at a time. */

  lemma ChunksFromHead(text: string, size: int, step: nat, start: nat)
    requires step >= 1 && 0 < |ChunksFrom(text, size, step, start)|
    ensures start < |text|
    ensures ChunksFrom(text, size, step, start)[0] == Window(text, size, start)
  {
    ChunksFromUnfold(text, size, step, start);
  }

  lemma ChunksFromLength(text: string, size: int, step: nat, start: nat)
    requires step >= 1 && start < |text|
    ensures start + size >= |text| ==> |ChunksFrom(text, size, step, start)| == 1
    ensures start + size < |text| ==> |ChunksFrom(text, size, step, start)| == 1 + |ChunksFrom(text, size, step, start + step)|
  {
    ChunksFromUnfold(text, size, step, start);
  }

  lemma ChunksFromIndexShift(text: string, size: int, step: nat, start: nat, i: nat)
    requires step >= 1 && 0 < i < |ChunksFrom(text, size, step, start)|
    ensures i - 1 < |ChunksFrom(text, size, step, start + step)|
    ensures ChunksFrom(text, size, step, start)[i] == ChunksFrom(text, size, step, start + step)[i - 1]
  {
    ChunksFromUnfold(text, size, step, start);
  }

  lemma ChunksFromTail(text: string, size: int, step: nat, start: nat)
    requires step >= 1 && start < |text|
    ensures start + size >= |text| ==> ChunksFrom(text, size, step, start)[1..] == []
    ensures start + size < |text| ==> ChunksFrom(text, size, step, start)[1..] == ChunksFrom(text, size, step, start + step)
  {
    ChunksFromUnfold(text, size, step, start);
  }

  /** A window that starts inside the text is the plain slice up to `min(n, start + size)`, of 1 to `size` characters. */
  lemma WindowInside(text: string, size: int, start: nat)
    requires size >= 1 && start < |text|
    ensures Window(text, size, start) == text[start..Min(|text|, start + size)]
    ensures 1 <= |Window(text, size, start)| <= size
  {
  }

  /** Where window `i` starts when the first one starts at `start`. */
  function WindowStart(start: nat, step: nat, i: nat): nat {
    if i == 0 then start else WindowStart(start, step, i - 1) + step
  }

  lemma {:induction false} WindowStartProduct(start: nat, step: nat, i: nat)
    ensures WindowStart(start, step, i) == start + i * step
  {
    if i > 0 {
      WindowStartProduct(start, step, i - 1);
      MulPred(i, step);
    }
  }

  lemma MulPred(i: nat, step: nat)
    requires i > 0
    ensures (i - 1) * step + step == i * step
  {
  }

  lemma {:induction false} ShiftWindow(start: nat, step: nat, i: nat)
    requires i > 0
    ensures WindowStart(start, step, i) == WindowStart(start + step, step, i - 1)
  {
    if i > 1 {
      ShiftWindow(start, step, i - 1);
    }
  }

  /** Chunk `i` of the chunks from `start` is the window at `WindowStart(start, step, i)`, which lies inside the text. */
  lemma {:induction false} ChunksFromAt(text: string, size: int, step: nat, start: nat, i: nat)
    requires step >= 1 && i < |ChunksFrom(text, size, step, start)|
    ensures WindowStart(start, step, i) < |text|
    ensures ChunksFrom(text, size, step, start)[i] == Window(text, size, WindowStart(start, step, i))
    decreases i
  {
    if i > 0 {
      ChunksFromIndexShift(text, size, step, start, i);
      ShiftWindow(start, step, i);
      ChunksFromAt(text, size, step, start + step, i - 1);
    } else {
      ChunksFromHead(text, size, step, start);
    }
  }

  /**
   * Every window but the last stops short of the end of the text, and, when
   * the window never moves past its own end, the last one reaches it.
   */
  lemma {:induction false} ChunksFromEnds(text: string, size: int, step: nat, start: nat, i: nat)
    requires step >= 1 && i < |ChunksFrom(text, size, step, start)|
    ensures i + 1 < |ChunksFrom(text, size, step, start)| ==> WindowStart(start, step, i) + size < |text|
    ensures i + 1 == |ChunksFrom(text, size, step, start)| && step <= size ==> WindowStart(start, step, i) + size >= |text|
    decreases i
  {
    ChunksFromHead(text, size, step, start);
    ChunksFromLength(text, size, step, start);
    if i > 0 {
      ShiftWindow(start, step, i);
      ChunksFromEnds(text, size, step, start + step, i - 1);
    } else if start + size < |text| && step <= size {
      ChunksFromLength(text, size, step, start + step);
    }
  }

  /** Empty text gives no chunks, and any other text at least one. */
  lemma ChunksEmpty(text: string, size: int, overlap: int)
    ensures Chunks(text, size, overlap) == [] <==> text == []
  {
    if text != [] {
      ChunksFromLength(text, size, Step(size, overlap), 0);
    }
  }

  /** Chunk `i` is the window at `i * step`, and that window starts inside the text. */
  lemma ChunkAt(text: string, size: int, overlap: int, i: nat)
    requires i < |Chunks(text, size, overlap)|
    ensures i * Step(size, overlap) < |text|
    ensures Chunks(text, size, overlap)[i] == Window(text, size, i * Step(size, overlap))
  {
    ChunksFromAt(text, size, Step(size, overlap), 0, i);
    WindowStartProduct(0, Step(size, overlap), i);
  }

  /** With a positive window every chunk is a non-empty piece of the text of at most `size` characters. */
  lemma ChunkLengths(text: string, size: int, overlap: int, i: nat)
    requires size >= 1 && i < |Chunks(text, size, overlap)|
    ensures i * Step(size, overlap) < |text|
    ensures var start := i * Step(size, overlap);
      Chunks(text, size, overlap)[i] == text[start..Min(|text|, start + size)]
    ensures 1 <= |Chunks(text, size, overlap)[i]| <= size
  {
    ChunkAt(text, size, overlap, i);
    WindowInside(text, size, i * Step(size, overlap));
  }

  /**
   * When the window never moves past its own end (`overlap >= 0`), the last
   * chunk ends exactly at the end of the text and every earlier chunk is a full
   * window that ends before it.
   */
  lemma LastChunkEndsText(text: string, size: int, overlap: int)
    requires text != [] && size >= 1 && overlap >= 0
    ensures var cs := Chunks(text, size, overlap); var step := Step(size, overlap);
      && cs != []
      && (|cs| - 1) * step + |cs[|cs| - 1]| == |text|
      && forall i :: 0 <= i < |cs| - 1 ==> |cs[i]| == size && i * step + |cs[i]| < |text|
  {
    var cs := Chunks(text, size, overlap);
    var step := Step(size, overlap);
    ChunksEmpty(text, size, overlap);
    var last := |cs| - 1;
    ChunkLengths(text, size, overlap, last);
    ChunksFromEnds(text, size, step, 0, last);
    WindowStartProduct(0, step, last);
    forall i | 0 <= i < |cs| - 1
      ensures |cs[i]| == size && i * step + |cs[i]| < |text|
    {
      ChunkLengths(text, size, overlap, i);
      ChunksFromEnds(text, size, step, 0, i);
      WindowStartProduct(0, step, i);
    }
  }

  /**
   * With `0 <= overlap < size` the next chunk starts `size - overlap`
   * characters after the current one, so the last `overlap` characters of a
   * chunk are the first `overlap` characters of the next.
   */
  lemma ConsecutiveChunksOverlap(text: string, size: int, overlap: int, i: nat)
    requires 0 <= overlap < size && i + 1 < |Chunks(text, size, overlap)|
    ensures var cs := Chunks(text, size, overlap);
      && |cs[i]| == size && |cs[i + 1]| > overlap
      && cs[i][size - overlap..] == cs[i + 1][..overlap]
  {
    var step := size - overlap;
    var cs := Chunks(text, size, overlap);
    var p, q := WindowStart(0, step, i), WindowStart(0, step, i + 1);
    assert p + size < |text| by {
      ChunksFromEnds(text, size, step, 0, i);
    }
    assert cs[i] == text[p..p + size] by {
      ChunksFromAt(text, size, step, 0, i);
      WindowInside(text, size, p);
    }
    assert cs[i + 1] == text[q..Min(|text|, q + size)] by {
      ChunksFromAt(text, size, step, 0, i + 1);
      WindowInside(text, size, q);
    }
    SlidingOverlap(text, p, q, size, overlap);
  }

  /** Two windows `size - overlap` apart share `overlap` characters. */
  lemma SlidingOverlap(text: string, p: nat, q: nat, size: nat, overlap: nat)
    requires overlap < size && q == p + (size - overlap) && p + size < |text|
    ensures var a, b := text[p..p + size], text[q..Min(|text|, q + size)];
      |b| > overlap && a[size - overlap..] == b[..overlap]
  {
    var a, b := text[p..p + size], text[q..Min(|text|, q + size)];
    assert a[size - overlap..] == text[q..p + size];
    assert b[..overlap] == text[q..p + size];
  }

  /* Putting the text back together from its chunks. */

  /**
   * The first chunk from `start`, followed by the tails of the rest, is the
   * text from `start` on.
   */
  lemma {:induction false} StitchFrom(text: string, size: int, overlap: nat, start: nat)
    requires overlap < size && start < |text|
    ensures var cs := ChunksFrom(text, size, size - overlap, start);
      cs != [] && cs[0] + Tails(cs[1..], overlap) == text[start..]
    decreases |text| - start
  {
    if start + size < |text| {
      StitchFrom(text, size, overlap, start + (size - overlap));
      StitchLink(text, size, overlap, start);
    } else {
      StitchLast(text, size, overlap, start);
    }
  }

  /** `StitchFrom` for a window that reaches the end of the text: it is the only chunk left. */
  lemma StitchLast(text: string, size: int, overlap: nat, start: nat)
    requires overlap < size && start < |text| <= start + size
    ensures var cs := ChunksFrom(text, size, size - overlap, start);
      cs != [] && cs[0] + Tails(cs[1..], overlap) == text[start..]
  {
    var step := size - overlap;
    var cs := ChunksFrom(text, size, step, start);
    ChunksFromLength(text, size, step, start);
    ChunksFromHead(text, size, step, start);
    ChunksFromTail(text, size, step, start);
    WindowInside(text, size, start);
  }

  /** `StitchFrom` for a window that stops short of the end, given `StitchFrom` for the next one. */
  lemma StitchLink(text: string, size: int, overlap: nat, start: nat)
    requires overlap < size && start + size < |text|
    requires var rest := ChunksFrom(text, size, size - overlap, start + (size - overlap));
      rest != [] && rest[0] + Tails(rest[1..], overlap) == text[start + (size - overlap)..]
    ensures var cs := ChunksFrom(text, size, size - overlap, start);
      cs != [] && cs[0] + Tails(cs[1..], overlap) == text[start..]
  {
    var step := size - overlap;
    var cs := ChunksFrom(text, size, step, start);
    var rest := ChunksFrom(text, size, step, start + step);
    var m := Min(|text|, start + step + size);
    assert cs != [] && cs[0] == text[start..start + size] by {
      ChunksFromLength(text, size, step, start);
      ChunksFromHead(text, size, step, start);
      WindowInside(text, size, start);
    }
    assert cs[1..] == rest by {
      ChunksFromTail(text, size, step, start);
    }
    assert rest[0] == text[start + step..m] by {
      ChunksFromHead(text, size, step, start + step);
      WindowInside(text, size, start + step);
    }
    StitchStep(text, start, size, overlap, m, cs, rest);
  }

  /** One window of `StitchFrom`: the first chunk and the tails of the rest, given the stitch of the rest. */
  lemma StitchStep(text: string, start: nat, size: int, overlap: nat, m: nat, cs: seq<string>, rest: seq<string>)
    requires overlap < size && start + size < |text| && start + size <= m <= |text|
    requires cs != [] && cs[0] == text[start..start + size] && cs[1..] == rest
    requires rest != [] && rest[0] == text[start + size - overlap..m]
    requires rest[0] + Tails(rest[1..], overlap) == text[start + size - overlap..]
    ensures cs[0] + Tails(cs[1..], overlap) == text[start..]
  {
    var tail := Tails(rest[1..], overlap);
    assert Tails(cs[1..], overlap) == Drop(rest[0], overlap) + tail;
    Restitch(text, start, start + size - overlap, start + size, m, rest[0], tail);
  }

  /**
   * If `head + tail` is the text from `k` on and `head` is `text[k..m]`, then
   * `text[s..e]` followed by `head` without its first `e - k` characters and
   * then `tail` is the text from `s` on.
   */
  lemma Restitch(text: string, s: nat, k: nat, e: nat, m: nat, head: string, tail: string)
    requires s <= k <= e <= m <= |text| && head == text[k..m] && head + tail == text[k..]
    ensures text[s..e] + (Drop(head, e - k) + tail) == text[s..]
  {
    assert tail == (head + tail)[m - k..] == text[m..];
    assert Drop(head, e - k) == text[e..m];
    assert text[s..] == text[s..e] + text[e..m] + text[m..];
  }

  /** With `0 <= overlap < size`, stitching the chunks back together gives the text again. */
  lemma StitchChunks(text: string, size: int, overlap: int)
    requires 0 <= overlap < size
    ensures Stitch(Chunks(text, size, overlap), overlap) == text
  {
    if text != [] {
      StitchFrom(text, size, overlap, 0);
    }
  }

  lemma {:induction false} TailsNoOverlap(cs: seq<string>)
    ensures Tails(cs, 0) == Concat(cs)
  {
    if cs != [] {
      TailsNoOverlap(cs[1..]);
    }
  }

  /** Without overlap the chunks simply partition the text. */
  lemma ConcatChunks(text: string, size: int)
    requires size >= 1
    ensures Concat(Chunks(text, size, 0)) == text
  {
    var cs := Chunks(text, size, 0);
    StitchChunks(text, size, 0);
    if cs != [] {
      TailsNoOverlap(cs[1..]);
    }
  }

  /** There is one record per chunk. */
  lemma {:induction false} DocumentsLength(pages: seq<Page>, size: int, overlap: int)
    ensures |Documents(pages, size, overlap)| == ChunkCount(pages, size, overlap)
    decreases |pages|
  {
    if pages != [] {
      DocumentsLength(pages[..|pages| - 1], size, overlap);
    }
  }

  lemma {:induction false} FlatMapAppend<T, U>(a: seq<T>, b: seq<T>, f: T -> seq<U>)
    ensures FlatMap(a + b, f) == FlatMap(a, f) + FlatMap(b, f)
    decreases |b|
  {
    if b == [] {
      assert a + b == a;
    } else {
      var b', last := b[..|b| - 1], b[|b| - 1];
      assert (a + b)[..|a + b| - 1] == a + b';
      assert (a + b)[|a + b| - 1] == last;
      FlatMapAppend(a, b', f);
      var fa, fb' := FlatMap(a, f), FlatMap(b', f);
      assert fa + fb' + f(last) == fa + (fb' + f(last));
    }
  }

  /** The records of a run of pages are the records of its first part followed by those of the rest. */
  lemma DocumentsAppend(a: seq<Page>, b: seq<Page>, size: int, overlap: int)
    ensures Documents(a + b, size, overlap) == Documents(a, size, overlap) + Documents(b, size, overlap)
  {
    FlatMapAppend(a, b, p => PageDocuments(p, size, overlap));
  }

  /**
   * Chunk `idx` of page `j` is record number `ChunkCount(pages[..j]) + idx`,
   * and it carries that page's number and source and the id
   * `"{source}-p{page}-c{idx}"`.
   */
  lemma DocumentAt(pages: seq<Page>, size: int, overlap: int, j: nat, idx: nat)
    requires j < |pages| && idx < |Chunks(pages[j].text, size, overlap)|
    ensures var k := ChunkCount(pages[..j], size, overlap) + idx;
      && k < |Documents(pages, size, overlap)|
      && Documents(pages, size, overlap)[k]
         == Document(Chunks(pages[j].text, size, overlap)[idx], pages[j].page, pages[j].source,
                     ChunkId(pages[j].source, pages[j].page, idx))
  {
    assert pages == pages[..j + 1] + pages[j + 1..];
    assert pages[..j + 1][..j] == pages[..j];
    DocumentsAppend(pages[..j + 1], pages[j + 1..], size, overlap);
    DocumentsLength(pages[..j], size, overlap);
  }

  /** Every record is chunk `idx` of some page `j`, at the position `DocumentAt` gives. */
  lemma {:induction false} DocumentOrigin(pages: seq<Page>, size: int, overlap: int, k: nat) returns (j: nat, idx: nat)
    requires k < |Documents(pages, size, overlap)|
    ensures j < |pages| && idx < |Chunks(pages[j].text, size, overlap)|
    ensures k == ChunkCount(pages[..j], size, overlap) + idx
    decreases |pages|
  {
    var init := pages[..|pages| - 1];
    DocumentsLength(init, size, overlap);
    if k < |Documents(init, size, overlap)| {
      j, idx := DocumentOrigin(init, size, overlap, k);
      assert init[..j] == pages[..j];
    } else {
      j := |pages| - 1;
      idx := k - |Documents(init, size, overlap)|;
      assert pages[..j] == init;
    }
  }

  /** Within one page the chunk ids are pairwise distinct. */
  lemma ChunkIdsDistinct(source: string, page: int, i: nat, i': nat)
    requires i != i'
    ensures ChunkId(source, page, i) != ChunkId(source, page, i')
  {
    var prefix := source + "-p" + IntToString(page) + "-c";
    if ChunkId(source, page, i) == ChunkId(source, page, i') {
      assert NatToString(i) == ChunkId(source, page, i)[|prefix|..];
      assert NatToString(i') == ChunkId(source, page, i')[|prefix|..];
      NatToStringInjective(i, i');
    }
  }

  /**
   * With a negative overlap the window can jump past the end of the text:
   * "ab" in windows of one character moving two at a time keeps only "a",
   * so `LastChunkEndsText` needs `overlap >= 0`.
   */
  lemma NegativeOverlapSkipsEnd()
    ensures Chunks("ab", 1, -1) == ["a"]
  {
    assert ChunksFrom("ab", 1, 2, 2) == [];
    assert Window("ab", 1, 0) == "a";
  }
}
