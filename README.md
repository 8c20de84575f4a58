# pdf-chatbot core in Dafny

pdf-chatbot is a Flask application. It takes PDF uploads, splits their pages into overlapping text chunks, indexes the chunks in a vector store, and answers questions about them through a conversational retrieval chain. Around those libraries it has a small amount of logic of its own, and that logic is modelled and verified here:

- **Chunking** (`utils/chunking.py`).
  - `_chunk_text` slides a window of `size` characters over a text by `max(1, size - overlap)`.
  - `build_documents` turns pages into chunk records. Each record carries the page number, the source and the id `"{source}-p{page}-c{idx}"`.
- **Page extraction** (`utils/pdf_processor.py`).
  - `_clean_text` collapses every run of whitespace to one space and strips the ends, which comes to `" ".join(s.split())`.
  - `extract_text_by_page` numbers pages from 1, cleans their text and names the source after the last `/` of the path. The text a PDF reader extracts is an input.
- **Web layer** (`app.py`).
  - The size-setting parser `_parse_size` and the extension check `allowed_file`.
  - The loop in `chat` that pairs stored messages into (question, answer) turns.
  - The session state (`history`, `ready`) that `upload`, `chat` and `clear` change.

The model is laid out in these files:

| file | module | contents |
|---|---|---|
| `wrappers.dfy` | `Wrappers` | `Option` |
| `text.dfy` | `Text` | Python's whitespace class, `strip`, ASCII `upper`/`lower`, and the text after the last separator |
| `decimal.dfy` | `Decimal` | `str(int)` and `int(str)` in base 10 |
| `records.dfy` | `Records` | page and chunk records |
| `chunk_spec.dfy` | `ChunkSpec` | the chunk windows and the record list, as functions |
| `chunking.dfy` | `Chunking` | the two loops of `utils/chunking.py` as methods, proved to compute those functions |
| `chunk_properties.dfy` | `ChunkProperties` | what the chunks and records satisfy |
| `pdf_processor.dfy` | `PdfProcessor` | `_clean_text` and the page loop |
| `validation.dfy` | `Validation` | `_parse_size` and `allowed_file` |
| `history.dfy` | `History` | messages and the pairing loop |
| `app.dfy` | `App` | the session class with the `upload`, `chat`, `history` and `clear` handlers |

The handlers do not call any backend. Instead, each backend's outcome is a parameter:

- the `files` part of the request;
- each file's name (after `secure_filename`), size, and per-reader extracted page texts;
- whether the vector store builds or loads;
- whether the model loads;
- the chain's result.

Each method states the reply and the new session state for every combination of these inputs.

## Model

| member | source | states |
|---|---|---|
| ChunkSpec.Step | utils/chunking.py:11 | The step is at least 1 and at least `size - overlap`. It is exactly 1 when `overlap >= size`, and `size - overlap` otherwise. |
| Chunking.ChunkText | utils/chunking.py:5-18 | The loop returns exactly the windows of `Chunks`: windows starting at 0, step, 2·step, …, ending with the first window that reaches the end of the text. Empty text gives none. |
| Chunking.BuildDocuments | utils/chunking.py:21-38 | The nested loops return `Documents`: each page's chunk records, page after page. |
| ChunkProperties.ChunksEmpty | utils/chunking.py:6-7 | There are no chunks exactly when the text is empty. |
| ChunkProperties.ChunkAt | utils/chunking.py:9-17 | Chunk i is the window starting at `i * step`, and that start lies inside the text. |
| ChunkProperties.ChunkLengths | utils/chunking.py:12-14 | For `size >= 1`, chunk i is `text[i*step : min(n, i*step + size)]`, and its length is between 1 and `size`. |
| ChunkProperties.LastChunkEndsText | utils/chunking.py:15-16 | For non-empty text, `size >= 1` and `overlap >= 0`: the last chunk ends exactly at `len(text)`. Every earlier chunk is `size` long and ends before it. |
| ChunkProperties.NegativeOverlapSkipsEnd | utils/chunking.py:11-17 | With `overlap = -1`, chunking "ab" into size-1 windows gives only "a". The window steps past the end, so the last chunk need not reach it. |
| ChunkProperties.ConsecutiveChunksOverlap | utils/chunking.py:11-17 | For `0 <= overlap < size`, every chunk but the last is `size` long, and its last `overlap` characters are the first `overlap` characters of the next chunk. |
| ChunkProperties.StitchChunks | utils/chunking.py:11-17 | For `0 <= overlap < size`, joining the chunks and dropping the `overlap` characters each one repeats gives back the whole text. |
| ChunkProperties.ConcatChunks | utils/chunking.py:11-17 | With `overlap = 0` and `size >= 1`, the chunks concatenated are the text. |
| ChunkProperties.DocumentsLength | utils/chunking.py:22-38 | There is one record per chunk: the number of records is the sum of the pages' chunk counts. |
| ChunkProperties.DocumentsAppend | utils/chunking.py:23-37 | The records of two runs of pages are the records of the first run followed by those of the second. |
| ChunkProperties.DocumentAt | utils/chunking.py:27-35 | Chunk `idx` of page `j` is record number (chunks of earlier pages + `idx`). It has that chunk as content, the page's number and source, and the id `"{source}-p{page}-c{idx}"`. |
| ChunkProperties.DocumentOrigin | utils/chunking.py:23-37 | Every record is some page's chunk, at the position `DocumentAt` gives. |
| ChunkProperties.ChunkIdsDistinct | utils/chunking.py:34 | Different chunks of one page have different ids. |
| Decimal.ParseIntOfIntToString | app.py:53-56 | `int` reads back what `str` writes, sign included. |
| Decimal.IntToStringInjective | utils/chunking.py:34 | Different page numbers are written differently in ids. |
| Text.Strip | utils/pdf_processor.py:17 | `strip()` leaves no whitespace at either end, and is empty exactly when the input is all whitespace. |
| Text.StripIgnoresPadding | app.py:51 | Whitespace added around a string does not change its `strip()`. |
| Text.StripUpper | app.py:51 | `strip()` and `upper()` commute. |
| Text.AfterLastProperties | app.py:64 | The text after the last separator is a suffix without the separator, preceded by it unless it is the whole string. |
| PdfProcessor.CollapseProperties | utils/pdf_processor.py:16 | After the substitution the only whitespace is plain spaces, and never two whitespace characters in a row; a leading or trailing space may remain. The result starts with whitespace exactly when the input does. It keeps the non-whitespace characters in order, and is empty only for empty input. |
| PdfProcessor.CollapseRun | utils/pdf_processor.py:16 | A whitespace run between text not ending in whitespace and text not starting with it becomes exactly one space, and the text on each side is substituted on its own. |
| PdfProcessor.CleanTextProperties | utils/pdf_processor.py:12-17 | Empty input cleans to "". The result has no whitespace at either end and is single-spaced. It keeps every non-whitespace character in order, and is empty exactly when the input is all whitespace. |
| PdfProcessor.WordsProperties | utils/pdf_processor.py:16-17 | `Words`, the model of `s.split()`, yields only non-empty words without whitespace. |
| PdfProcessor.CleanTextRun | utils/pdf_processor.py:12-17 | Cleaning text whose halves meet at a whitespace run with non-whitespace on both sides gives the cleaned halves joined by exactly one space. |
| PdfProcessor.CleanTextJoinsWords | utils/pdf_processor.py:12-17 | `_clean_text(s)` equals `" ".join(s.split())`: the words of `s`, in order, each separated by one space. |
| PdfProcessor.CleanTextIdempotent | utils/pdf_processor.py:12-17 | Cleaning a cleaned text changes nothing. |
| PdfProcessor.SourceNameProperties | utils/pdf_processor.py:28 | The source is the part of the path after its last `/`. It contains no `/`, and it is the whole path when there is no `/`. |
| PdfProcessor.SourceNameOfJoinedPath | utils/pdf_processor.py:28 | A file saved as `dir/name` is cited as `name`. |
| PdfProcessor.ExtractTextByPage | utils/pdf_processor.py:26-28 | There is one record per page, in order. Record i has number i+1, the cleaned text of that page, and the source named from the path. |
| PdfProcessor.AsWrittenRepeatsPages | utils/pdf_processor.py:24-42 | As written, a first reader that fails on page 2 of a two-page file leaves page 1 in the list. The fallback then adds pages 1 and 2 again. |
| PdfProcessor.ExtractPages | utils/pdf_processor.py:20-45 | Corrected flow: the pages of the first reader that reads the whole file, numbered 1..n, all citing the file. No pages when neither reader succeeds. |
| PdfProcessor.ExtractWithFallback | utils/pdf_processor.py:20-45 | The page loop runs on the reader that succeeded, giving `ExtractPages`. |
| Validation.ParseSizeOfInt | app.py:56 | A size without a unit is read as the integer itself. |
| Validation.ParseSizeMegabytes | app.py:52-53 | "NMB" is read as N·1024·1024. |
| Validation.ParseSizeKilobytes | app.py:54-55 | "NKB" is read as N·1024. |
| Validation.ParseSizeTenMegabytes | app.py:58-60 | The default setting "10MB" gives 10·1024·1024, the same as the fallback value. |
| Validation.ParseSizeIgnoresPadding | app.py:51 | Whitespace around the setting does not change the limit. |
| Validation.ParseSizeIgnoresCase | app.py:51 | Settings equal up to letter case give the same limit. |
| Validation.ParseSizeFallback | app.py:57-58 | A setting without any digit gives the 10 MB default. |
| Validation.AllowedFileIff | app.py:63-64 | A name is accepted exactly when it ends in "." followed by "pdf" in any letter case. The text after the last dot must be the extension. |
| App.DefaultConfigValues | app.py:41-60 | Without environment settings, chunks are 1000 characters, the overlap is 200, and the size limit is 10 MB. |
| History.PairHistory | app.py:179-189 | The pairing loop returns `HistoryPairs` of the stored messages. |
| History.PairAddedIff | app.py:185-189 | A message adds a pair exactly when it is an assistant message and a question is pending. The pair is that question with the answer; otherwise the pairs are unchanged. |
| History.LatestUserWins | app.py:185-186 | A user message becomes the pending question and replaces any unanswered one. It adds no pair. |
| History.OtherRolesIgnored | app.py:183-189 | A message with a role other than user or assistant can be removed from anywhere without changing the pairs or the pending question. |
| History.PairCount | app.py:182-189 | There are no more pairs than assistant messages. The pairs plus a pending question are no more than the user messages. |
| History.ExchangePaired | app.py:207-210 | Appending a question and its answer to any history adds exactly that pair and leaves nothing pending. |
| History.TranscriptPairs | app.py:179-189 | For a history of alternating question and answer, the pairs are all its exchanges, in order. |
| App.FirstFileErrorIff | app.py:103-115 | An upload passes the per-file checks exactly when every file passes. Otherwise the reply is that of the first failing file in request order. |
| App.FirstFileErrorPrefix | app.py:103-115 | Files after the first failing one do not affect the reply. |
| App.AllPagesCiteFiles | app.py:117-123 | When names contain no `/`, every extracted page cites one of the uploaded files. |
| App.Session.constructor | app.py:160 | A new session is not ready and has no history. |
| App.Session.Upload | app.py:90-149 | Errors and their order: 400 for a missing files part, then 400 for an empty file list. Then the first file that fails the name, extension or size check (400/400/413), then 500 when the store build fails. Every error leaves the session unchanged. On success, the records are the chunks of all files' pages (read with the corrected reader flow of "## Findings"), the reply lists the file names and page count, and the history is empty and the session ready. |
| App.Session.Chat | app.py:152-215 | Errors in order: 400 for an empty stripped question (checked before readiness), 409 when not ready, then 500 for a store, model or chain failure. Each leaves the history unchanged. The chain receives `HistoryPairs` of the stored history, which is every earlier exchange. On success, the answer is the chain's `answer` when present and non-empty, and otherwise its `result` (or "") (line 195). The history gains the user message and the assistant message with citations, in that order, and earlier entries stay unchanged. The pairs gain (question, answer). |
| App.Session.GetHistory | app.py:218-221 | The stored messages are returned as they are. |
| App.Session.Clear | app.py:224-238 | The history becomes empty and the session not ready. |

## Left out

- `utils/rag_chain.py`: embeddings, vector stores, the LLM clients and the chains are library calls. The outcomes that `upload` and `chat` catch are parameters of `Upload` and `Chat`: building the store, loading it, configuring the LLM, and invoking the chain.
- Uncaught backend failures: `get_embeddings` (app.py:133 and 164), `get_retriever` (app.py:170) and `build_conv_chain` (app.py:175) are called outside any `try`. When one of them raises, Flask answers its generic 500 and the session is left as it was. The model treats these calls as always succeeding.
- App.Session.Upload: the pages come from `ExtractPages`, the corrected reader flow of "## Findings". When pdfplumber raises part-way and PyPDF2 then succeeds, the source keeps the partial pages as well. Its reply then counts them too (for example "pages": 3 for a two-page file), and the repeated pages give duplicate chunk ids. The model does not reproduce this.
- PDF parsing by pdfplumber and PyPDF2: what each reader extracts, and whether it raises, is an input (`ReaderRun`). An exception that escapes `extract_text_by_page` is not modelled.
- Flask routing, CORS, rate limits and JSON request parsing. `Chat` takes the question string (a missing question is ""). A non-string question, which makes Flask answer 500, is not modelled.
- `secure_filename`: file names arrive already secured. `AllPagesCiteFiles` assumes its result has no `/`.
- File I/O:
  - saving uploads;
  - the seek/tell size probe (the size is an input);
  - `os.makedirs`;
  - removing the store directory in `clear`;
  - session ids and store paths.
- Files saved before a later file fails its checks stay on disk, which the model does not track.
- Environment reads: `Config` is a parameter of the session, and `DefaultConfig` is the setting without environment. `TOP_K_RESULTS`, the model names and the store preference only feed the left-out backends.
- Citation extraction from retrieved documents: the citations arrive with the chain's result.
- Stored history entries always have a role and a content, because only `chat` writes them. The `msg.get` defaults for missing keys are not modelled.
- The session is one object. Cookie storage, concurrency between requests and per-user isolation are not modelled.
- Decimal.ParseInt: `int` is modelled as surrounding whitespace, an optional sign and ASCII digits. Underscores between digits and non-ASCII digits, which Python also accepts, make it fail here.
- Text.Upper: `upper()` and `lower()` map ASCII letters only, so non-ASCII case mapping is not modelled.
- ChunkProperties.LastChunkEndsText: it requires `overlap >= 0` in addition to `size >= 1`, because a negative overlap makes the step longer than the window and the end of the text can be skipped (`NegativeOverlapSkipsEnd`).

## Findings

| source | as written | input that shows it | evidently intended | confidence | as-written member | corrected member |
|---|---|---|---|---|---|---|
| utils/pdf_processor.py:24-42 | Pages that pdfplumber appended before it raised stay in the list, and the PyPDF2 fallback appends its pages after them. When both fail part-way, the partial pages are returned even though the code comment promises an empty list. | A two-page file on which pdfplumber raises at page 2 while PyPDF2 reads both pages: the records are numbered 1, 1, 2, and page 1 appears twice. | The fallback starts from an empty list, so the result is the complete pages of one reader, numbered 1..n. | medium, not executed | PdfProcessor.AsWrittenRepeatsPages | PdfProcessor.ExtractPages |
