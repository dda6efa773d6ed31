/** main.py: the `/process_resumes` endpoint. It validates every upload, then
    turns each file into exactly one result record while counting the files
    processed and failed, records the usage, and answers with a summary or an
    analysis response.

    Framework I/O is not modelled: each upload carries what reading it yields
    (`body`: the document, or the message of the exception `file.read()`
    raised) and what closing it does, and the document carries what the OCR libraries make of its bytes.
    The language model is a `Backend` of two functions whose `Failure` stands
    for an exception raised while summarizing or analysing. */
module App {
  import opened Wrappers
  import opened Text
  import opened Schemas
  import opened OcrService

  /** `ALLOWED_EXTENSIONS`. */
  const AllowedExtensions: set<string> := {"pdf", "png", "jpg", "jpeg"}

  /** `ALLOWED_MIME_TYPES`. */
  const AllowedMimeTypes: set<string> := {"application/pdf", "image/png", "image/jpeg"}

  const PdfMimeType: string := "application/pdf"
  const PngMimeType: string := "image/png"
  const JpegMimeType: string := "image/jpeg"

  /** The record text for a file from which no text was extracted. */
  const NoTextMessage: string := "Nenhum texto extraído do arquivo."

  /** The prefix of the record text for a file whose processing raised. */
  const ErrorPrefix: string := "Erro ao processar o arquivo: "

  /** The error text of the fallback record for a content type with no extractor. */
  const UnsupportedMessage: string := "Tipo de arquivo não suportado ou erro na leitura inicial."

  /** The HTTP status of a rejected request. */
  const BadRequest: nat := 400

  /** What the OCR libraries make of a file's bytes: read as a PDF (see
      `OcrService.PdfText`) and read as an image (see
      `OcrService.ExtractTextFromImageBytes`). Which of the two is used depends
      on the declared content type only. */
  datatype Document = Document(pdfPages: Option<seq<PageResult>>, imageOcr: Option<string>)

  /** One uploaded file: its name, its declared MIME type, the outcome of
      reading it, and the message of the exception closing it raises (`None`
      when `file.close()` returns normally). */
  datatype Upload = Upload(fileName: string, contentType: string, body: Result<Document, string>,
                           closeError: Option<string>)

  /** The language model: `generate_summary(text)` and
      `analyze_resume_with_query(text, query)`, each of which may raise. */
  datatype Backend = Backend(
    summarize: string -> Result<string, string>,
    analyze: (string, string) -> Result<string, string>)

  /** One element of `processed_results`: a `ResumeSummary`, a
      `ResumeAnalysis`, or the bare error record of the fallback branch. */
  datatype Entry =
    | SummaryEntry(summary: ResumeSummary)
    | AnalysisEntry(analysis: ResumeAnalysis)
    | UnsupportedEntry(fileName: string, error: string)

  /** Which check of the validation loop refused a file. */
  datatype RejectionKind = InvalidMimeType | InvalidExtension

  /** The `HTTPException(400)` raised by the validation loop, for the file at `index`. */
  datatype Rejection = Rejection(index: nat, fileName: string, kind: RejectionKind)

  /** `log_result_summary`. */
  datatype ResultSummary = ResultSummary(filesProcessed: nat, filesFailed: nat, operationType: string)

  /** The arguments of the one call to `log_usage`. */
  datatype UsageLog = UsageLog(requestId: string, userId: string, queryText: Option<string>, resultSummary: ResultSummary)

  /** What a request ends in: an HTTP error raised before any file is read, or
      a response after the usage has been logged. */
  datatype EndpointOutcome =
    | Rejected(status: nat, rejection: Rejection)
    | Completed(response: Response, usage: UsageLog)

  /** The per-file result of the processing loop, and whether it counted as processed. */
  datatype FileOutcome = FileOutcome(entry: Entry, processed: bool)

  // ---------------------------------------------------------------- validation

  /** `get_file_extension`: `None` when the name has no dot, otherwise the
      lower-cased text after the last dot (empty when the name ends with a dot). */
  function GetFileExtension(fileName: string): (ext: Option<string>)
    ensures ext.None? <==> '.' !in fileName
    ensures ext.Some? ==> ext.value == Lower(fileName[LastIndexOf(fileName, '.') + 1..])
  {
    if '.' in fileName then
      var parts := Split(fileName, '.');
      SplitLast(fileName, '.');
      Some(Lower(parts[|parts| - 1]))
    else
      None
  }

  /** A name ending with a dot has an empty extension. */
  lemma TrailingDotGivesEmptyExtension(fileName: string)
    requires |fileName| > 0 && fileName[|fileName| - 1] == '.'
    ensures GetFileExtension(fileName) == Some("")
  {
  }

  /** `not ext or ext not in ALLOWED_EXTENSIONS` fails. */
  predicate ExtensionAllowed(ext: Option<string>) {
    ext.Some? && ext.value != "" && ext.value in AllowedExtensions
  }

  /** A file passes both checks of the validation loop. */
  predicate Accepted(u: Upload) {
    u.contentType in AllowedMimeTypes && ExtensionAllowed(GetFileExtension(u.fileName))
  }

  /** The check that refuses a file that is not accepted: the MIME type check comes first. */
  function RejectionKindOf(u: Upload): RejectionKind
    requires !Accepted(u)
  {
    if u.contentType !in AllowedMimeTypes then InvalidMimeType else InvalidExtension
  }

  /** The validation loop (main.py, lines 81-92): refuses the first file whose
      MIME type or extension is not allowed, and accepts the request when there
      is none. */
  method ValidateUploads(files: seq<Upload>) returns (rejection: Option<Rejection>)
    ensures rejection.None? <==> forall i :: 0 <= i < |files| ==> Accepted(files[i])
    ensures rejection.Some? ==>
              var k := rejection.value.index;
              k < |files| && !Accepted(files[k]) &&
              (forall j :: 0 <= j < k ==> Accepted(files[j])) &&
              rejection.value == Rejection(k, files[k].fileName, RejectionKindOf(files[k]))
  {
    for i := 0 to |files|
      invariant forall j :: 0 <= j < i ==> Accepted(files[j])
    {
      var file := files[i];
      if file.contentType !in AllowedMimeTypes {
        return Some(Rejection(i, file.fileName, InvalidMimeType));
      }
      var ext := GetFileExtension(file.fileName);
      if ext.None? || ext.value == "" || ext.value !in AllowedExtensions {
        return Some(Rejection(i, file.fileName, InvalidExtension));
      }
    }
    return None;
  }

  // ---------------------------------------------------------------- per file

  /** Python's truth value of `query`: neither `None` nor "". */
  predicate Truthy(query: Option<string>) {
    query.Some? && query.value != ""
  }

  /** `operation_type`. */
  function OperationType(query: Option<string>): string {
    if Truthy(query) then "analysis" else "summary"
  }

  /** The record for a file: a `ResumeAnalysis` when a query was given, a
      `ResumeSummary` otherwise. */
  function Labelled(fileName: string, query: Option<string>, text: string): Entry {
    if Truthy(query) then AnalysisEntry(ResumeAnalysis(fileName, text))
    else SummaryEntry(ResumeSummary(fileName, text))
  }

  /** The name of the file a record is about. */
  function EntryFileName(e: Entry): string {
    match e
    case SummaryEntry(s) => s.fileName
    case AnalysisEntry(a) => a.fileName
    case UnsupportedEntry(name, _) => name
  }

  /** The text extracted from a document, chosen by content type alone; `None`
      for a content type that has no extractor. */
  function ExtractedText(contentType: string, doc: Document): Option<string> {
    if contentType == PdfMimeType then Some(PdfText(doc.pdfPages))
    else if contentType == PngMimeType || contentType == JpegMimeType then
      Some(ExtractTextFromImageBytes(doc.imageOcr))
    else None
  }

  /** The language-model call for a text: analysis against the query when one
      was given, a summary otherwise. */
  function Infer(text: string, query: Option<string>, backend: Backend): Result<string, string> {
    if Truthy(query) then backend.analyze(text, query.value) else backend.summarize(text)
  }

  /** What one pass of the processing loop (main.py, lines 95-175) makes of a file. */
  function ProcessFile(u: Upload, query: Option<string>, backend: Backend): FileOutcome {
    match u.body
    case Failure(e) => FileOutcome(Labelled(u.fileName, query, ErrorPrefix + e), false)
    case Success(doc) =>
      match ExtractedText(u.contentType, doc)
      case None => FileOutcome(UnsupportedEntry(u.fileName, UnsupportedMessage), false)
      case Some(text) =>
        if u.closeError.Some? then FileOutcome(Labelled(u.fileName, query, ErrorPrefix + u.closeError.value), false)
        else if Strip(text) == "" then FileOutcome(Labelled(u.fileName, query, NoTextMessage), false)
        else
          match Infer(text, query, backend)
          case Success(out) => FileOutcome(Labelled(u.fileName, query, out), true)
          case Failure(e) => FileOutcome(Labelled(u.fileName, query, ErrorPrefix + e), false)
  }

  /** The number of `files` that count as processed. */
  function CountProcessed(files: seq<Upload>, query: Option<string>, backend: Backend): (n: nat)
    ensures n <= |files|
  {
    if |files| == 0 then 0
    else CountProcessed(files[..|files| - 1], query, backend) +
         (if ProcessFile(files[|files| - 1], query, backend).processed then 1 else 0)
  }

  /** Counting one more file adds one exactly when that file counts as processed. */
  lemma CountProcessedStep(files: seq<Upload>, i: nat, query: Option<string>, backend: Backend)
    requires i < |files|
    ensures CountProcessed(files[..i + 1], query, backend) ==
            CountProcessed(files[..i], query, backend) +
            (if ProcessFile(files[i], query, backend).processed then 1 else 0)
  {
    assert files[..i + 1][..i] == files[..i];
  }

  // ---------------------------------------------------------------- properties of one file

  /** Every file yields a record about that same file. */
  lemma RecordNamesItsFile(u: Upload, query: Option<string>, backend: Backend)
    ensures EntryFileName(ProcessFile(u, query, backend).entry) == u.fileName
  {
    if u.body.Success? {
      var text := ExtractedText(u.contentType, u.body.value);
      if text.Some? && u.closeError.None? && Strip(text.value) != "" {
        var out := Infer(text.value, query, backend);
        assert out.Success? ==> ProcessFile(u, query, backend).entry == Labelled(u.fileName, query, out.value);
      }
    }
  }

  /** A file counts as processed exactly when it was read and closed, its text was not
      blank, and the language model returned without raising; its record then
      holds the model's output. */
  lemma ProcessedIff(u: Upload, query: Option<string>, backend: Backend)
    ensures ProcessFile(u, query, backend).processed <==>
              u.body.Success? && ExtractedText(u.contentType, u.body.value).Some? && u.closeError.None? &&
              Strip(ExtractedText(u.contentType, u.body.value).value) != "" &&
              Infer(ExtractedText(u.contentType, u.body.value).value, query, backend).Success?
    ensures ProcessFile(u, query, backend).processed ==>
              ProcessFile(u, query, backend).entry ==
              Labelled(u.fileName, query, Infer(ExtractedText(u.contentType, u.body.value).value, query, backend).value)
  {
  }

  /** An accepted file whose extracted text is empty or whitespace only gets
      the fixed message and counts as failed. */
  lemma BlankTextGetsFixedMessage(u: Upload, query: Option<string>, backend: Backend)
    requires Accepted(u) && u.body.Success? && u.closeError.None?
    requires AllSpace(ExtractedText(u.contentType, u.body.value).value)
    ensures ExtractedText(u.contentType, u.body.value).Some?
    ensures ProcessFile(u, query, backend) == FileOutcome(Labelled(u.fileName, query, NoTextMessage), false)
  {
    StripEmptyIff(ExtractedText(u.contentType, u.body.value).value);
  }

  /** An exception, while reading the file, closing it or inside the language
      model, yields "Erro ao processar o arquivo: " and its message, and counts
      as failed. */
  lemma ExceptionGetsErrorMessage(u: Upload, query: Option<string>, backend: Backend)
    requires u.body.Failure? ||
             (ExtractedText(u.contentType, u.body.value).Some? &&
              (u.closeError.Some? ||
               (Strip(ExtractedText(u.contentType, u.body.value).value) != "" &&
                Infer(ExtractedText(u.contentType, u.body.value).value, query, backend).Failure?)))
    ensures var msg := if u.body.Failure? then u.body.error
                       else if u.closeError.Some? then u.closeError.value
                       else Infer(ExtractedText(u.contentType, u.body.value).value, query, backend).error;
            ProcessFile(u, query, backend) == FileOutcome(Labelled(u.fileName, query, ErrorPrefix + msg), false)
  {
  }

  /** Every allowed MIME type has an extractor, so after validation the
      fallback record is never produced. */
  lemma FallbackUnreachable(u: Upload, query: Option<string>, backend: Backend)
    requires Accepted(u)
    ensures !ProcessFile(u, query, backend).entry.UnsupportedEntry?
  {
    RecordKindFollowsQuery(u, query, backend);
  }

  /** For an accepted file the record is an analysis exactly when a query was
      given, and a summary exactly when none was. */
  lemma RecordKindFollowsQuery(u: Upload, query: Option<string>, backend: Backend)
    requires Accepted(u)
    ensures ProcessFile(u, query, backend).entry.AnalysisEntry? <==> Truthy(query)
    ensures ProcessFile(u, query, backend).entry.SummaryEntry? <==> !Truthy(query)
  {
    var entry := ProcessFile(u, query, backend).entry;
    if u.body.Success? {
      var doc := u.body.value;
      assert u.contentType == PdfMimeType || u.contentType == PngMimeType || u.contentType == JpegMimeType;
      var text := ExtractedText(u.contentType, doc);
      assert text.Some?;
      if u.closeError.Some? {
        assert entry == Labelled(u.fileName, query, ErrorPrefix + u.closeError.value);
      } else if Strip(text.value) == "" {
        assert entry == Labelled(u.fileName, query, NoTextMessage);
      } else {
        var out := Infer(text.value, query, backend);
        if out.Success? {
          assert entry == Labelled(u.fileName, query, out.value);
        } else {
          assert entry == Labelled(u.fileName, query, ErrorPrefix + out.error);
        }
      }
    }
  }

  /** The "no text extracted" branch is only reached for an image, or for a
      PDF that failed to convert or converted to no pages. */
  lemma NoTextOnlyForImagesOrEmptyPdfs(u: Upload, doc: Document)
    requires ExtractedText(u.contentType, doc).Some?
    requires Strip(ExtractedText(u.contentType, doc).value) == ""
    ensures u.contentType == PngMimeType || u.contentType == JpegMimeType ||
            doc.pdfPages.None? || doc.pdfPages == Some([])
  {
    if u.contentType == PdfMimeType && doc.pdfPages.Some? && doc.pdfPages.value != [] {
      PdfTextNotBlankWithPages(doc.pdfPages.value);
      assert false;
    }
  }

  /** The two checks are independent and dispatch reads the content type only:
      a file named `x.png` declared as a PDF is accepted and goes to the PDF
      extractor. */
  lemma PngNamedPdfGoesToPdfPath(body: Result<Document, string>)
    ensures Accepted(Upload("x.png", PdfMimeType, body, None))
    ensures body.Success? ==>
              ExtractedText(PdfMimeType, body.value) == Some(PdfText(body.value.pdfPages))
  {
    var name := "x.png";
    assert name[1] == '.';
    assert LastIndexOf(name, '.') == 1;
    assert name[2..] == "png";
    assert Lower("png") == "png";
  }

  /** Dispatch reads the content type only: renaming a file changes the name
      its record carries and nothing about whether it counts as processed. */
  lemma DispatchIgnoresName(u: Upload, name: string, query: Option<string>, backend: Backend)
    ensures ProcessFile(u.(fileName := name), query, backend).processed ==
            ProcessFile(u, query, backend).processed
    ensures EntryFileName(ProcessFile(u.(fileName := name), query, backend).entry) == name
  {
    RecordNamesItsFile(u.(fileName := name), query, backend);
  }

  // ---------------------------------------------------------------- the loops

  /** The body of the processing loop (main.py, lines 95-175) for one file:
      its record, and whether it counts as processed (`files_processed`) or
      failed (`files_failed`). */
  method ProcessUpload(file: Upload, query: Option<string>, backend: Backend)
    returns (entry: Entry, processed: bool)
    ensures FileOutcome(entry, processed) == ProcessFile(file, query, backend)
  {
    match file.body {
      case Failure(e) =>
        return Labelled(file.fileName, query, ErrorPrefix + e), false;
      case Success(doc) =>
        var textContent := "";
        if file.contentType == PdfMimeType {
          textContent := ExtractTextFromPdfBytes(doc.pdfPages);
        } else if file.contentType == PngMimeType || file.contentType == JpegMimeType {
          textContent := ExtractTextFromImageBytes(doc.imageOcr);
        } else {
          return UnsupportedEntry(file.fileName, UnsupportedMessage), false;
        }
        assert ExtractedText(file.contentType, doc) == Some(textContent);
        if file.closeError.Some? {
          return Labelled(file.fileName, query, ErrorPrefix + file.closeError.value), false;
        }
        if Strip(textContent) == "" {
          return Labelled(file.fileName, query, NoTextMessage), false;
        }
        var output;
        if Truthy(query) {
          output := backend.analyze(textContent, query.value);
        } else {
          output := backend.summarize(textContent);
        }
        match output {
          case Success(out) =>
            return Labelled(file.fileName, query, out), true;
          case Failure(e) =>
            return Labelled(file.fileName, query, ErrorPrefix + e), false;
        }
    }
  }

  /** The processing loop (main.py, lines 94-175): one record per file in
      input order, and the two counters. */
  method ProcessUploads(files: seq<Upload>, query: Option<string>, backend: Backend)
    returns (results: seq<Entry>, filesProcessed: nat, filesFailed: nat)
    ensures |results| == |files|
    ensures forall i :: 0 <= i < |files| ==> results[i] == ProcessFile(files[i], query, backend).entry
    ensures filesProcessed == CountProcessed(files, query, backend)
    ensures filesProcessed + filesFailed == |files|
  {
    results, filesProcessed, filesFailed := [], 0, 0;
    for i := 0 to |files|
      invariant |results| == i
      invariant forall j :: 0 <= j < i ==> results[j] == ProcessFile(files[j], query, backend).entry
      invariant filesProcessed == CountProcessed(files[..i], query, backend)
      invariant filesProcessed + filesFailed == i
    {
      var entry, processed := ProcessUpload(files[i], query, backend);
      CountProcessedStep(files, i, query, backend);
      results := results + [entry];
      if processed {
        filesProcessed := filesProcessed + 1;
      } else {
        filesFailed := filesFailed + 1;
      }
    }
    assert files[..|files|] == files;
  }

  /** The `ResumeAnalysis` records of a list made only of analyses. */
  function Analyses(entries: seq<Entry>): (r: seq<ResumeAnalysis>)
    requires forall i :: 0 <= i < |entries| ==> entries[i].AnalysisEntry?
    ensures |r| == |entries| && forall i :: 0 <= i < |r| ==> entries[i] == AnalysisEntry(r[i])
  {
    seq(|entries|, i requires 0 <= i < |entries| => entries[i].analysis)
  }

  /** The `ResumeSummary` records of a list made only of summaries. */
  function Summaries(entries: seq<Entry>): (r: seq<ResumeSummary>)
    requires forall i :: 0 <= i < |entries| ==> entries[i].SummaryEntry?
    ensures |r| == |entries| && forall i :: 0 <= i < |r| ==> entries[i] == SummaryEntry(r[i])
  {
    seq(|entries|, i requires 0 <= i < |entries| => entries[i].summary)
  }

  /** `process_resumes_endpoint`: a 400 before anything is read when some file
      is refused; otherwise one record per file in input order, counters that
      add up to the number of files, one usage log, and the response variant
      chosen by the query. */
  method ProcessResumesEndpoint(files: seq<Upload>, requestId: string, userId: string,
                                query: Option<string>, backend: Backend)
    returns (outcome: EndpointOutcome)
    ensures outcome.Rejected? <==> exists i :: 0 <= i < |files| && !Accepted(files[i])
    ensures outcome.Rejected? ==>
              var k := outcome.rejection.index;
              outcome.status == BadRequest && k < |files| && !Accepted(files[k]) &&
              (forall j :: 0 <= j < k ==> Accepted(files[j])) &&
              outcome.rejection == Rejection(k, files[k].fileName, RejectionKindOf(files[k]))
    ensures outcome.Completed? ==>
              outcome.usage.requestId == requestId && outcome.usage.userId == userId &&
              outcome.usage.queryText == query &&
              outcome.usage.resultSummary.filesProcessed == CountProcessed(files, query, backend) &&
              outcome.usage.resultSummary.filesProcessed + outcome.usage.resultSummary.filesFailed == |files| &&
              outcome.usage.resultSummary.operationType == OperationType(query) &&
              outcome.response.requestId == requestId
    ensures outcome.Completed? && Truthy(query) ==>
              outcome.response.AnalysisResponse? && outcome.response.queryUsed == query.value &&
              |outcome.response.analyses| == |files| &&
              forall i :: 0 <= i < |files| ==>
                AnalysisEntry(outcome.response.analyses[i]) == ProcessFile(files[i], query, backend).entry
    ensures outcome.Completed? && !Truthy(query) ==>
              outcome.response.SummaryResponse? &&
              |outcome.response.summaries| == |files| &&
              forall i :: 0 <= i < |files| ==>
                SummaryEntry(outcome.response.summaries[i]) == ProcessFile(files[i], query, backend).entry
  {
    var rejection := ValidateUploads(files);
    if rejection.Some? {
      return Rejected(BadRequest, rejection.value);
    }
    var results, filesProcessed, filesFailed := ProcessUploads(files, query, backend);
    var summary := ResultSummary(filesProcessed, filesFailed, OperationType(query));
    var usage := UsageLog(requestId, userId, query, summary);
    forall i | 0 <= i < |files| ensures results[i].AnalysisEntry? <==> Truthy(query) {
      RecordKindFollowsQuery(files[i], query, backend);
    }
    if Truthy(query) {
      var response := AnalysisResponse(requestId, query.value, Analyses(results));
      return Completed(response, usage);
    } else {
      forall i | 0 <= i < |files| ensures results[i].SummaryEntry? {
        RecordKindFollowsQuery(files[i], query, backend);
      }
      var response := SummaryResponse(requestId, Summaries(results));
      return Completed(response, usage);
    }
  }
}
