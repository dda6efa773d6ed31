# Resume analyser: upload validation, per-file aggregation and PDF text assembly

This project models the logic of the resume-analysis service that belongs to the
service itself, rather than to the libraries it calls. The service accepts a batch
of uploaded resumes (PDF, PNG or JPEG). It extracts their text by OCR, summarises each
resume or answers a query against it with a language model, and returns one record per file.

Two pieces are modelled:

- **The `/process_resumes` endpoint** (`main.py`), in module `App` (`app.dfy`).
  - `get_file_extension` and the two allow-lists.
  - The validation loop, which refuses the whole request with status 400 at the first bad file.
  - The processing loop, which turns every file into exactly one record and keeps the
    `files_processed` / `files_failed` counters.
  - The single usage-log call and the choice between `SummaryResponse` and `AnalysisResponse`.
- **Text extraction** (`services/ocr_service.py`), in module `OcrService` (`ocr_service.dfy`).
  - Image text is the stripped OCR output, or "" on error.
  - PDF text is one numbered section per page, with an error header for pages that
    could not be re-encoded, stripped at the end. It is "" when the conversion fails.

Support modules:

- `Text` (`text.dfy`) defines the Python string operations the code relies on:
  `str.strip()` over Python's exact whitespace set, `str.lower()`, `str.split(sep)`
  for a one-character separator, and `str(n)`.
- `Schemas` (`schemas.dfy`) mirrors the response DTOs of `models/schemas.py`.
- `Wrappers` (`wrappers.dfy`) holds `Option` and `Result`.

The libraries are replaced by data:

- What PIL and Tesseract make of an image is an `Option<string>`. `None` means that
  opening the image or running OCR raised.
- What pdf2image makes of a PDF is an `Option<seq<PageResult>>`. A page is
  `Rendered(ocr)` or `EncodingFailed`.
- Reading and closing an upload give a value or an exception message.
- The language model is a `Backend` holding two functions. Each returns
  `Success(text)`, or `Failure(message)` for an exception.

Imperative code is modelled as methods with loops. Each method is proved against a
specification function, and lemmas state the properties of those functions.

- `ValidateUploads`, `ProcessUploads` and `ExtractTextFromPdfBytes` are the three source loops.
- `ProcessUpload` is the body of the processing loop. It follows `ProcessFile` step by step;
  it is a method of its own so that the proof of `ProcessUploads` stays small.
- `ProcessFile`, `CountProcessed` and `PdfText` are their specifications.

Lines 90-92 of `main.py` are indented one space deeper than the `if` at line 82 that they
follow, and match no enclosing block, so Python would refuse the module. The evident intent is modelled: the extension check runs inside
the validation loop, after the MIME check, for every file.

## Model

| member | source | states |
|---|---|---|
| `Text.SkipSpace` | services/ocr_service.py:23 | The forward scan of `strip()` stops at the first non-whitespace character (or the end) and passes over whitespace only |
| `Text.SkipSpaceBack` | services/ocr_service.py:23 | The backward scan of `strip()` stops after the last non-whitespace character (or at the start) and passes over whitespace only |
| `Text.StripEnds` | services/ocr_service.py:23 | What `strip()` keeps is empty or starts and ends with a non-whitespace character |
| `Text.StripEmptyIff` | main.py:122 | `s.strip()` is empty exactly when every character of `s` is whitespace, which is the test of the "no text extracted" branch |
| `Text.StripIdempotent` | main.py:122 | Stripping an already stripped text changes nothing |
| `Text.StripSurround` | services/ocr_service.py:23 | `s.strip()` is one slice of `s` with only whitespace before and after it, so the text between is kept unchanged |
| `Text.StripKeepsNonSpace` | services/ocr_service.py:48 | A string holding one non-whitespace character does not strip to "" |
| `Text.IndexOfFrom` | main.py:37 | Gives the first occurrence of the separator at or after a position, or -1 exactly when there is none there |
| `Text.SplitFromJoin` | main.py:37 | Joining the pieces of a suffix split on `sep` gives the suffix back |
| `Text.SplitJoin` | main.py:37 | Joining the pieces of `s.split(sep)` with `sep` gives back `s` |
| `Text.SplitFromPieces` | main.py:37 | No piece of a split suffix contains `sep`, and there is more than one piece exactly when `sep` occurs in that suffix |
| `Text.SplitPieces` | main.py:37 | No piece of `s.split(sep)` contains `sep`, and there is more than one piece exactly when `sep` occurs in `s` |
| `Text.LastIndexBefore` | main.py:37 | The backward scan finds the last occurrence below a bound, with no occurrence between it and the bound |
| `Text.LastIndexOf` | main.py:37 | Gives the position of the last occurrence of a character, with no occurrence after it |
| `Text.LastIndexOfAbsent` | main.py:37 | There is no last occurrence exactly when the character does not occur |
| `Text.LastIndexAtLeast` | main.py:37 | An occurrence of the character at `j` puts the last occurrence at or after `j` |
| `Text.LastIndexBelow` | main.py:37 | No occurrence from `start` on puts the last occurrence before `start` |
| `Text.SplitFromLast` | main.py:37 | The last piece of a split suffix is the text after the last separator when that lies in the suffix, and the whole suffix otherwise |
| `Text.SplitLast` | main.py:37 | The last piece of `s.split(".")` is the text after the last dot, or all of `s` when it has no dot |
| `Text.LowerIdempotent` | main.py:37 | Lower-casing an already lower-cased extension changes nothing |
| `Text.LowerKeepsNonUpper` | main.py:37 | A text with no upper-case letter `A`-`Z` is its own `lower()` |
| `Text.NatToString` | services/ocr_service.py:44 | `str(i+1)` is a non-empty string of decimal digits with no leading zero |
| `Text.NatToStringRoundTrip` | services/ocr_service.py:44 | Reading the page numeral back gives the page number |
| `OcrService.ImageTextIsStripped` | services/ocr_service.py:16-26 | Image text is a slice of the OCR output with only whitespace outside it, and neither starts nor ends with whitespace, so stripping it again changes nothing; a failure to open or read the image gives "" |
| `OcrService.ImageTextEmptyIff` | services/ocr_service.py:20-26 | Image text is "" exactly when OCR raised or returned only whitespace |
| `OcrService.SectionsAppend` | services/ocr_service.py:36-47 | The assembled text of two runs of pages is the first run's sections followed by the second's, numbered on from where the first stopped |
| `OcrService.SectionsSnoc` | services/ocr_service.py:36-47 | One more page appends exactly its own section at the end |
| `OcrService.PageInOrder` | services/ocr_service.py:36-47 | Page i contributes its numbered section (header i+1 and its text, or the error header) between the sections of the pages before it and after it |
| `OcrService.SectionStartsWithDash` | services/ocr_service.py:44-47 | Every page section, ordinary or error, starts with a line break followed by a dash |
| `OcrService.PdfTextEmptyWithoutPages` | services/ocr_service.py:32-51 | A PDF whose conversion raised, or which has no pages, yields "" |
| `OcrService.PdfTextNotBlankWithPages` | services/ocr_service.py:44-48 | A PDF with at least one page yields text that is not empty and not blank, because the first header survives the strip |
| `OcrService.ExtractTextFromPdfBytes` | services/ocr_service.py:28-51 | The accumulating loop returns the stripped concatenation of the page sections in page order, or "" when conversion fails |
| `App.GetFileExtension` | main.py:36-37 | None exactly when the name has no dot; otherwise the lower-cased text after the last dot |
| `App.TrailingDotGivesEmptyExtension` | main.py:37 | A name ending with a dot has the empty extension (which validation then refuses) |
| `App.ValidateUploads` | main.py:81-92 | Accepts exactly when every file has an allowed MIME type and an allowed, non-empty extension; otherwise reports the first refused file and which check (MIME first) refused it |
| `App.CountProcessed` | main.py:74-76 | The number of processed files never exceeds the number of files |
| `App.RecordNamesItsFile` | main.py:94-173 | Every record names the file it was produced for |
| `App.ProcessedIff` | main.py:143-156 | A file counts as processed exactly when it was read and closed, its text was not blank and the model returned; its record then holds the model's output |
| `App.BlankTextGetsFixedMessage` | main.py:122-141 | Empty or whitespace-only text yields "Nenhum texto extraído do arquivo." and counts as failed |
| `App.ExceptionGetsErrorMessage` | main.py:158-175 | An exception while reading, closing or inside the model yields "Erro ao processar o arquivo: " plus its message and counts as failed |
| `App.FallbackUnreachable` | main.py:102-118 | After validation the bare error record of the fallback branch is never produced |
| `App.RecordKindFollowsQuery` | main.py:126-171 | For an accepted file the record is a `ResumeAnalysis` exactly when the query is truthy and a `ResumeSummary` exactly when it is not |
| `App.NoTextOnlyForImagesOrEmptyPdfs` | main.py:102-122 | The "no text extracted" branch is reached only for an image, or for a PDF that failed to convert or has no pages |
| `App.PngNamedPdfGoesToPdfPath` | main.py:82-105 | A file named `x.png` declared as `application/pdf` passes both checks and goes to the PDF extractor: dispatch reads the content type only |
| `App.DispatchIgnoresName` | main.py:102-118 | A renamed file's record carries the new name, and whether it counts as processed does not change: dispatch reads the content type alone |
| `App.ProcessUpload` | main.py:95-175 | One pass of the processing loop produces exactly the record and processed/failed flag of the per-file specification |
| `App.ProcessUploads` | main.py:94-175 | One record per file, in input order; `files_processed` counts the processed files and `files_processed + files_failed` equals the number of files |
| `App.ProcessResumesEndpoint` | main.py:73-185 | 400 exactly when some file is refused, naming the first one, with no record and no usage log. Otherwise: one usage log with the counters (summing to the file count) and `operation_type`; an `AnalysisResponse` echoing the query when it is truthy, else a `SummaryResponse`; one record per file in order |

## Left out

- FastAPI routing, multipart parsing and `async`/`await` are not modelled. Each upload carries the outcome of `file.read()` and `file.close()` as data.
- The logger calls and the text of the 400 `detail` are not modelled. The detail joins a Python set, whose order is unspecified. The model keeps the refused file, its index and which check refused it.
- PIL, Tesseract and pdf2image are foreign calls. Their outputs are inputs to the model, and the OCR language setting has no effect on it.
- The language model (services/llm_service.py) is not part of this model: model loading, prompt formatting, truncation, beam search and its fixed fallback strings. The endpoint sees it as two functions that return text or raise.
- `log_usage` (services/db_service.py) is not part of this model beyond its arguments: MongoDB, the timestamp and its own error handling. The model records the one call it receives after processing.
- `health_check` (a constant response) and the uvicorn entry point are not modelled.
- `ProcessRequest` and `LogEntry` in models/schemas.py are not modelled. Their defaults come from uuid and the clock.
- Text.Lower: maps only `A`-`Z`, while Python's `str.lower()` also lowers non-ASCII letters. No non-ASCII letter lowers to a name in the allowed extension set, so validation is not affected.
- App.CountProcessed: its contract states only the bound. Which files are counted is stated by `App.ProcessedIff` and `App.ProcessUploads`.
- Exceptions that `except Exception` does not catch (`BaseException` such as cancellation) are not modelled.
