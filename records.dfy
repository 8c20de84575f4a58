/**
 * The records passed between the PDF reader, the chunker and the vector
 * store: one page of extracted text (the dicts `{"page", "text", "source"}`)
 * and one chunk ready for indexing (a `Document` with its metadata).
 */
module Records {

  /** One page of a PDF: its 1-based number, its cleaned text and the file it came from. */
  datatype Page = Page(page: int, text: string, source: string)

  /** One chunk of a page, with the metadata `page`, `source` and `chunk_id`. */
  datatype Document = Document(content: string, page: int, source: string, chunkId: string)
}
