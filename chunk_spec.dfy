/**
 * What utils/chunking.py computes, as functions: the windows `_chunk_text`
 * cuts from a text and the records `build_documents` makes from pages.
 */
module ChunkSpec {
  import opened Decimal
  import opened Records

  function Min(a: int, b: int): int { if a <= b then a else b }

  /**
   * Python's `s[start:end]` for a non-negative `start`: an `end` past the
   * string is clipped, and a negative `end` counts from the back.
   */
  function Slice(s: string, start: nat, end: int): string {
    var e := if end < 0 then (if |s| + end < 0 then 0 else |s| + end) else Min(|s|, end);
    if start < e then s[start..e] else []
  }

  /** How far the window moves each time: `max(1, size - overlap)`. */
  function Step(size: int, overlap: int): (step: nat)
    ensures step >= 1 && step >= size - overlap
    ensures overlap >= size ==> step == 1
    ensures overlap < size ==> step == size - overlap
  {
    if size - overlap > 1 then size - overlap else 1
  }

  /** The window of `size` characters from `start`: `text[start:min(n, start + size)]`. */
  function Window(text: string, size: int, start: nat): string {
    Slice(text, start, Min(|text|, start + size))
  }

  /**
   * The chunks the window loop produces from position `start` on: the window
   * `text[start:min(n, start + size)]`, then, unless that window reached the
   * end of the text, the chunks from `start + step`.
   */
  function ChunksFrom(text: string, size: int, step: nat, start: nat): seq<string>
    requires step >= 1
    decreases |text| - start
  {
    if start >= |text| then []
    else
      [Window(text, size, start)] + (if start + size >= |text| then [] else ChunksFrom(text, size, step, start + step))
  }

  /** What `_chunk_text(text, size, overlap)` returns. */
  function Chunks(text: string, size: int, overlap: int): seq<string> {
    if text == [] then [] else ChunksFrom(text, size, Step(size, overlap), 0)
  }

  lemma ChunksFromUnfold(text: string, size: int, step: nat, start: nat)
    requires step >= 1 && start < |text|
    ensures start + size >= |text| ==> ChunksFrom(text, size, step, start) == [Window(text, size, start)]
    ensures start + size < |text| ==> ChunksFrom(text, size, step, start) == [Window(text, size, start)] + ChunksFrom(text, size, step, start + step)
  {
  }

  /** The chunks joined end to end. */
  function Concat(cs: seq<string>): string {
    if cs == [] then [] else cs[0] + Concat(cs[1..])
  }

  /** `s[k:]`. */
  function Drop(s: string, k: nat): string {
    if k <= |s| then s[k..] else []
  }

  /** Every chunk with its first `overlap` characters removed, joined end to end. */
  function Tails(cs: seq<string>, overlap: nat): string {
    if cs == [] then [] else Drop(cs[0], overlap) + Tails(cs[1..], overlap)
  }

  /** The chunks joined back together, dropping the `overlap` characters each chunk repeats from the one before. */
  function Stitch(cs: seq<string>, overlap: nat): string {
    if cs == [] then [] else cs[0] + Tails(cs[1..], overlap)
  }

  /** The `chunk_id` metadata: `f"{source}-p{page}-c{idx}"`. */
  function ChunkId(source: string, page: int, idx: nat): string {
    source + "-p" + IntToString(page) + "-c" + NatToString(idx)
  }

  /** The records `build_documents` makes for one page, in chunk order. */
  function PageDocuments(p: Page, size: int, overlap: int): seq<Document> {
    var cs := Chunks(p.text, size, overlap);
    seq(|cs|, idx requires 0 <= idx < |cs| => Document(cs[idx], p.page, p.source, ChunkId(p.source, p.page, idx)))
  }

  /** `f` applied to every element of `xs`, the results joined in order. */
  function FlatMap<T, U>(xs: seq<T>, f: T -> seq<U>): seq<U> {
    if xs == [] then [] else FlatMap(xs[..|xs| - 1], f) + f(xs[|xs| - 1])
  }

  /** What `build_documents` returns: the pages' records one page after the other. */
  function Documents(pages: seq<Page>, size: int, overlap: int): seq<Document> {
    FlatMap(pages, p => PageDocuments(p, size, overlap))
  }

  lemma DocumentsSnoc(pages: seq<Page>, size: int, overlap: int)
    requires pages != []
    ensures Documents(pages, size, overlap)
         == Documents(pages[..|pages| - 1], size, overlap) + PageDocuments(pages[|pages| - 1], size, overlap)
  {
  }

  /** The number of chunks all the pages make together. */
  function ChunkCount(pages: seq<Page>, size: int, overlap: int): nat {
    if pages == [] then 0
    else ChunkCount(pages[..|pages| - 1], size, overlap) + |Chunks(pages[|pages| - 1].text, size, overlap)|
  }
}
