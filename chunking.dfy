/**
 * The loops of utils/chunking.py: `_chunk_text` and `build_documents`, each
 * proved to compute its function from `ChunkSpec`.
 */
module Chunking {
  import opened Records
  import opened ChunkSpec

  /** `_chunk_text`: slide a window of `size` characters forward by `Step(size, overlap)`. */
  method ChunkText(text: string, size: int, overlap: int) returns (chunks: seq<string>)
    ensures chunks == Chunks(text, size, overlap)
  {
    if text == [] {
      return [];
    }
    chunks := [];
    var start: nat := 0;
    var n := |text|;
    var step := Step(size, overlap);
    ghost var all := ChunksFrom(text, size, step, 0);
    while start < n
      invariant chunks + ChunksFrom(text, size, step, start) == all
      decreases n - start
    {
      var end := Min(n, start + size);
      ChunkTextStep(chunks, text, size, step, start);
      chunks := chunks + [Slice(text, start, end)];
      if end >= n {
        break;
      }
      start := start + step;
    }
  }

  /** One turn of the loop in `ChunkText`: the chunk it appends is the first of the chunks still to come. */
  lemma ChunkTextStep(done: seq<string>, text: string, size: int, step: nat, start: nat)
    requires step >= 1 && start < |text|
    ensures var done' := done + [Window(text, size, start)];
      && (start + size >= |text| ==> done' == done + ChunksFrom(text, size, step, start))
      && (start + size < |text| ==> done' + ChunksFrom(text, size, step, start + step) == done + ChunksFrom(text, size, step, start))
  {
    ChunksFromUnfold(text, size, step, start);
    var w := Window(text, size, start);
    if start + size < |text| {
      var rest := ChunksFrom(text, size, step, start + step);
      assert done + [w] + rest == done + ([w] + rest);
    }
  }

  /** `build_documents`: chunk every page and label each chunk with its page, source and id. */
  method BuildDocuments(pages: seq<Page>, chunkSize: int, overlap: int) returns (docs: seq<Document>)
    ensures docs == Documents(pages, chunkSize, overlap)
  {
    docs := [];
    for k := 0 to |pages|
      invariant docs == Documents(pages[..k], chunkSize, overlap)
    {
      var p := pages[k];
      var chunks := ChunkText(p.text, chunkSize, overlap);
      ghost var before := docs;
      for idx := 0 to |chunks|
        invariant docs == before + PageDocuments(p, chunkSize, overlap)[..idx]
      {
        PageDocumentsStep(before, p, chunkSize, overlap, idx);
        docs := docs + [Document(chunks[idx], p.page, p.source, ChunkId(p.source, p.page, idx))];
      }
      DocumentsStep(pages, chunkSize, overlap, k);
    }
    assert pages[..|pages|] == pages;
  }

  /** One turn of the inner loop of `BuildDocuments`: it appends the page's next record. */
  lemma PageDocumentsStep(before: seq<Document>, p: Page, size: int, overlap: int, idx: nat)
    requires idx < |Chunks(p.text, size, overlap)|
    ensures var pd := PageDocuments(p, size, overlap);
      before + pd[..idx] + [Document(Chunks(p.text, size, overlap)[idx], p.page, p.source, ChunkId(p.source, p.page, idx))]
      == before + pd[..idx + 1]
  {
    var pd := PageDocuments(p, size, overlap);
    assert pd[..idx + 1] == pd[..idx] + [pd[idx]];
  }

  /** One turn of the outer loop of `BuildDocuments`: it appends the records of the next page. */
  lemma DocumentsStep(pages: seq<Page>, size: int, overlap: int, k: nat)
    requires k < |pages|
    ensures Documents(pages[..k + 1], size, overlap)
         == Documents(pages[..k], size, overlap) + PageDocuments(pages[k], size, overlap)[..|Chunks(pages[k].text, size, overlap)|]
  {
    DocumentsSnoc(pages[..k + 1], size, overlap);
    assert pages[..k + 1][..k] == pages[..k];
    var pd := PageDocuments(pages[k], size, overlap);
    assert pd[..|pd|] == pd;
  }
}
