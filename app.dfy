/**
 * The per-session state of `app.py` and its three handlers that change it:
 * `upload` (validate the files, extract and chunk their pages, mark the
 * session ready with an empty history), `chat` (answer a question and
 * record the exchange) and `clear` (forget the history and the documents),
 * with `history` reading it back.
 *
 * What the handlers get from outside their own code is passed in: the
 * `files` part of the request, each file's name and size and what each
 * PDF reader extracted from it page by page, and the outcome of each backend call
 * (building or loading the vector store, loading the model, running the
 * chain).
 */
module App {
  import opened Wrappers
  import opened Text
  import opened Records
  import opened ChunkSpec
  import opened Chunking
  import opened PdfProcessor
  import opened Validation
  import opened History

  /** Where uploads are saved; only the part after the last `/` of a saved path reaches the page records. */
  const UploadFolder: string := "uploads"

  /** The settings read from the environment at start-up. */
  datatype Config = Config(chunkSize: int, chunkOverlap: int, maxFileSize: int)

  /** The settings when the environment sets none of them. */
  const DefaultConfig: Config := Config(1000, 200, ParseSize("10MB"))

  /** Without environment settings, chunks are 1000 characters overlapping by 200, and files may reach 10 MB. */
  lemma DefaultConfigValues()
    ensures DefaultConfig == Config(1000, 200, 10 * 1024 * 1024)
  {
    ParseSizeTenMegabytes();
  }

  /** One file of the request, after `secure_filename`: its name, its length, and what each PDF reader made of it. */
  datatype UploadedFile = UploadedFile(filename: string, size: nat, primary: ReaderRun, fallback: Option<ReaderRun>)

  /** A JSON reply with its status code (200 unless it is a failure). */
  datatype Response =
    | Failure(status: int, error: string)
    | Processed(files: seq<string>, pages: nat)
    | Answered(answer: string, citations: seq<Citation>)

  /** What `conv.invoke` gives back: an exception, or a result dictionary's `answer`, `result` and citations. */
  datatype ChainResult =
    | ChainFailed(error: string)
    | ChainAnswered(answer: Option<string>, result: Option<string>, citations: seq<Citation>)

  /** `result.get("answer") or result.get("result", "")`: an empty or missing answer falls back to `result`. */
  function AnswerText(answer: Option<string>, result: Option<string>): string {
    if answer.Some? && answer.value != [] then answer.value else result.GetOr("")
  }

  /** The checks `upload` makes on one file, in order; `None` when it passes them all. */
  function FileError(f: UploadedFile, maxFileSize: int): Option<Response> {
    if f.filename == [] then Some(Failure(400, "Invalid filename."))
    else if !AllowedFile(f.filename) then Some(Failure(400, "Unsupported file type for " + f.filename + "."))
    else if f.size != 0 && f.size > maxFileSize then Some(Failure(413, f.filename + " exceeds size limit."))
    else None
  }

  /** The reply of the first file, in request order, that fails its checks. */
  function FirstFileError(files: seq<UploadedFile>, maxFileSize: int): Option<Response>
    decreases |files|
  {
    if files == [] then None
    else
      var e := FirstFileError(files[..|files| - 1], maxFileSize);
      if e.Some? then e else FileError(files[|files| - 1], maxFileSize)
  }

  /** A request is turned down with the reply of its first failing file, and goes through only when every file passes. */
  lemma {:induction false} FirstFileErrorIff(files: seq<UploadedFile>, maxFileSize: int)
    ensures FirstFileError(files, maxFileSize) == None <==>
      forall i :: 0 <= i < |files| ==> FileError(files[i], maxFileSize) == None
    ensures FirstFileError(files, maxFileSize).Some? ==>
      exists i :: 0 <= i < |files| && FileError(files[i], maxFileSize) == FirstFileError(files, maxFileSize)
        && forall j :: 0 <= j < i ==> FileError(files[j], maxFileSize) == None
    decreases |files|
  {
    if files != [] {
      var init := files[..|files| - 1];
      FirstFileErrorIff(init, maxFileSize);
      assert forall i :: 0 <= i < |init| ==> init[i] == files[i];
      if FirstFileError(init, maxFileSize).Some? {
        var i :| 0 <= i < |init| && FileError(init[i], maxFileSize) == FirstFileError(init, maxFileSize)
          && forall j :: 0 <= j < i ==> FileError(init[j], maxFileSize) == None;
        assert FileError(files[i], maxFileSize) == FirstFileError(files, maxFileSize);
      } else if FileError(files[|files| - 1], maxFileSize).Some? {
        assert FileError(files[|files| - 1], maxFileSize) == FirstFileError(files, maxFileSize);
      }
    }
  }

  /** Once a prefix of the files has a failing file, the files after it do not matter. */
  lemma {:induction false} FirstFileErrorPrefix(files: seq<UploadedFile>, k: nat, maxFileSize: int)
    requires k <= |files| && FirstFileError(files[..k], maxFileSize).Some?
    ensures FirstFileError(files, maxFileSize) == FirstFileError(files[..k], maxFileSize)
    decreases |files|
  {
    if k < |files| {
      var init := files[..|files| - 1];
      assert init[..k] == files[..k];
      FirstFileErrorPrefix(init, k, maxFileSize);
    } else {
      assert files[..k] == files;
    }
  }

  /** The names reported back as saved. */
  function FileNames(files: seq<UploadedFile>): seq<string> {
    seq(|files|, i requires 0 <= i < |files| => files[i].filename)
  }

  /** The page records of one saved file. */
  function FilePages(f: UploadedFile): seq<Page> {
    ExtractPages(UploadFolder + "/" + f.filename, f.primary, f.fallback)
  }

  /** `all_pages`: the files' page records, file after file. */
  function AllPages(files: seq<UploadedFile>): seq<Page> {
    FlatMap(files, FilePages)
  }

  /** With names free of `/`, as `secure_filename` makes them, every page cites one of the uploaded files by name. */
  lemma {:induction false} AllPagesCiteFiles(files: seq<UploadedFile>)
    requires forall i :: 0 <= i < |files| ==> '/' !in files[i].filename
    ensures forall p :: p in AllPages(files) ==> p.source in FileNames(files)
    decreases |files|
  {
    if files != [] {
      var init, f := files[..|files| - 1], files[|files| - 1];
      AllPagesCiteFiles(init);
      SourceNameOfJoinedPath(UploadFolder, f.filename);
      assert FileNames(files) == FileNames(init) + [f.filename];
      forall p | p in AllPages(files) ensures p.source in FileNames(files) {
        if p in FilePages(f) {
          var k :| 0 <= k < |FilePages(f)| && FilePages(f)[k] == p;
        } else {
          assert p in AllPages(init);
        }
      }
    }
  }

  /** The state `app.py` keeps in a session: the conversation so far and whether documents are ready. */
  class Session {
    var history: seq<Message>
    var ready: bool
    const config: Config

    /** The history is a sequence of exchanges, and there is none before documents are ready. */
    ghost predicate Valid()
      reads this
    {
      IsTranscript(history) && (!ready ==> history == [])
    }

    /** A fresh session: no history, nothing processed. */
    constructor(config: Config)
      ensures Valid() && history == [] && !ready && this.config == config
    {
      history := [];
      ready := false;
      this.config := config;
    }

    /**
     * `upload`: the request must have a non-empty `files` part, and every
     * file, in order, a name, the pdf extension and a size within the
     * limit; the first failure is the reply. The files' pages are cut into
     * `docs`, and unless building the store fails (`storeError`) the
     * session is ready with an empty history. A failure changes nothing.
     */
    method Upload(filesPart: bool, files: seq<UploadedFile>, storeError: Option<string>)
      returns (resp: Response, docs: seq<Document>)
      modifies this
      ensures !filesPart ==> resp == Failure(400, "No files part in request.")
      ensures filesPart && files == [] ==> resp == Failure(400, "No files uploaded.")
      ensures filesPart && files != [] && FirstFileError(files, config.maxFileSize).Some? ==>
        resp == FirstFileError(files, config.maxFileSize).value
      ensures filesPart && files != [] && FirstFileError(files, config.maxFileSize) == None ==>
        && docs == Documents(AllPages(files), config.chunkSize, config.chunkOverlap)
        && resp == (if storeError.Some? then Failure(500, "Vector store build failed: " + storeError.value)
                    else Processed(FileNames(files), |AllPages(files)|))
      ensures resp.Processed? ==> history == [] && ready
      ensures !resp.Processed? ==> history == old(history) && ready == old(ready)
      ensures old(Valid()) ==> Valid()
    {
      docs := [];
      if !filesPart {
        return Failure(400, "No files part in request."), docs;
      }
      if files == [] {
        return Failure(400, "No files uploaded."), docs;
      }
      var allPages: seq<Page> := [];
      var savedFiles: seq<string> := [];
      for i := 0 to |files|
        invariant allPages == AllPages(files[..i])
        invariant savedFiles == FileNames(files[..i])
        invariant FirstFileError(files[..i], config.maxFileSize) == None
        invariant history == old(history) && ready == old(ready)
      {
        var f := files[i];
        assert files[..i + 1][..i] == files[..i];
        var err := FileError(f, config.maxFileSize);
        if err.Some? {
          FirstFileErrorPrefix(files, i + 1, config.maxFileSize);
          return err.value, docs;
        }
        savedFiles := savedFiles + [f.filename];
        var pages := ExtractWithFallback(UploadFolder + "/" + f.filename, f.primary, f.fallback);
        allPages := allPages + pages;
      }
      assert files[..|files|] == files;
      docs := BuildDocuments(allPages, config.chunkSize, config.chunkOverlap);
      if storeError.Some? {
        return Failure(500, "Vector store build failed: " + storeError.value), docs;
      }
      history := [];
      ready := true;
      resp := Processed(savedFiles, |allPages|);
    }

    /**
     * `chat`: the stripped question must be non-empty and the session
     * ready; after the store and the model have loaded, the stored history
     * is paired into `chatHistory` for the chain, and a chain answer is
     * recorded as a user and an assistant message. Every failure leaves
     * the session as it was.
     */
    method Chat(question: string, storeError: Option<string>, modelError: Option<string>, chain: ChainResult)
      returns (resp: Response, chatHistory: seq<Turn>)
      modifies this
      ensures Strip(question) == [] ==> resp == Failure(400, "Question is required.")
      ensures Strip(question) != [] && !old(ready) ==> resp == Failure(409, "Documents are not processed yet.")
      ensures Strip(question) != [] && old(ready) && storeError.Some? ==>
        resp == Failure(500, "Failed to load vector store: " + storeError.value)
      ensures Strip(question) != [] && old(ready) && storeError.None? && modelError.Some? ==>
        resp == Failure(500, "LLM not configured: " + modelError.value)
      ensures Strip(question) != [] && old(ready) && storeError.None? && modelError.None? ==>
        && chatHistory == HistoryPairs(old(history))
        && (old(Valid()) ==> chatHistory == Exchanges(old(history)))
        && (chain.ChainFailed? ==> resp == Failure(500, "LLM processing error: " + chain.error))
      ensures Strip(question) != [] && old(ready) && storeError.None? && modelError.None? && chain.ChainAnswered? ==>
        var answer := AnswerText(chain.answer, chain.result);
        && resp == Answered(answer, chain.citations)
        && history == old(history) + [Message("user", Strip(question), None),
                                      Message("assistant", answer, Some(chain.citations))]
        && HistoryPairs(history) == HistoryPairs(old(history)) + [(Strip(question), answer)]
      ensures !resp.Answered? ==> history == old(history)
      ensures ready == old(ready)
      ensures old(Valid()) ==> Valid()
    {
      chatHistory := [];
      var q := Strip(question);
      if q == [] {
        return Failure(400, "Question is required."), chatHistory;
      }
      if !ready {
        return Failure(409, "Documents are not processed yet."), chatHistory;
      }
      if storeError.Some? {
        return Failure(500, "Failed to load vector store: " + storeError.value), chatHistory;
      }
      if modelError.Some? {
        return Failure(500, "LLM not configured: " + modelError.value), chatHistory;
      }
      chatHistory := PairHistory(history);
      if IsTranscript(history) {
        TranscriptPairs(history);
      }
      if chain.ChainFailed? {
        return Failure(500, "LLM processing error: " + chain.error), chatHistory;
      }
      var answer := AnswerText(chain.answer, chain.result);
      var user := Message("user", q, None);
      var assistant := Message("assistant", answer, Some(chain.citations));
      ExchangePaired(history, user, assistant);
      ghost var before := history;
      history := history + [user, assistant];
      assert history[..|history| - 2] == before;
      resp := Answered(answer, chain.citations);
    }

    /** `history`: the stored messages, as they are. */
    method GetHistory() returns (messages: seq<Message>)
      ensures messages == history
    {
      messages := history;
    }

    /** `clear`: the history is emptied and the session is no longer ready. */
    method Clear()
      modifies this
      ensures history == [] && !ready
      ensures Valid()
    {
      history := [];
      ready := false;
    }
  }
}
