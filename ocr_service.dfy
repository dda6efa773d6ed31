/** services/ocr_service.py: text extraction from image and PDF bytes.

    The libraries (PIL, Tesseract, pdf2image) are not modelled; what they make of
    the bytes is an input. `ocr` is Tesseract's raw output for an image, or
    `None` when opening the image or running Tesseract raised. A PDF converts to
    `Some(pages)`, or to `None` when the conversion raised. */
module OcrService {
  import opened Wrappers
  import opened Text

  /** One page image produced by the PDF conversion: either it was re-encoded
      as PNG and `ocr` is what Tesseract made of it, or the re-encoding raised. */
  datatype PageResult = Rendered(ocr: Option<string>) | EncodingFailed

  /** `extract_text_from_image_bytes`: the OCR output stripped, or "" when the
      image could not be opened or read. */
  function ExtractTextFromImageBytes(ocr: Option<string>): string {
    match ocr
    case Some(raw) => Strip(raw)
    case None => ""
  }

  /** The image text is the OCR output without its surrounding whitespace:
      a slice of it with only whitespace outside, that neither starts nor ends
      with whitespace, so stripping it again changes nothing. */
  lemma ImageTextIsStripped(ocr: Option<string>)
    ensures var r := ExtractTextFromImageBytes(ocr);
            Strip(r) == r && (r == [] || (!IsSpace(r[0]) && !IsSpace(r[|r| - 1])))
    ensures ocr.Some? ==>
              exists a, b :: 0 <= a <= b <= |ocr.value| &&
                ExtractTextFromImageBytes(ocr) == ocr.value[a..b] &&
                AllSpace(ocr.value[..a]) && AllSpace(ocr.value[b..])
    ensures ocr.None? ==> ExtractTextFromImageBytes(ocr) == ""
  {
    if ocr.Some? {
      StripIdempotent(ocr.value);
      StripEnds(ocr.value);
      StripSurround(ocr.value);
    }
  }

  /** The image text is empty exactly when Tesseract failed or returned only
      whitespace. */
  lemma ImageTextEmptyIff(ocr: Option<string>)
    ensures ExtractTextFromImageBytes(ocr) == [] <==> ocr.None? || AllSpace(ocr.value)
  {
    if ocr.Some? {
      StripEmptyIff(ocr.value);
    }
  }

  /** The text before the page number in every page header. */
  const PageHeaderStart: string := "\n--- Página "

  /** The header written before the text of page number `n` (counted from 1). */
  function PageHeader(n: nat): string {
    PageHeaderStart + NatToString(n) + " ---\n"
  }

  /** The header written in place of page number `n` when it could not be re-encoded. */
  function PageErrorHeader(n: nat): string {
    PageHeaderStart + NatToString(n) + " (Erro na extração) ---\n"
  }

  /** What the page with zero-based index `i` adds to the PDF text. */
  function PageSection(i: nat, page: PageResult): string {
    match page
    case Rendered(ocr) => PageHeader(i + 1) + ExtractTextFromImageBytes(ocr)
    case EncodingFailed => PageErrorHeader(i + 1)
  }

  /** The sections of `pages`, in order, the first of them having index `first`. */
  function Sections(pages: seq<PageResult>, first: nat): string
    decreases |pages|
  {
    if |pages| == 0 then "" else PageSection(first, pages[0]) + Sections(pages[1..], first + 1)
  }

  /** The text `extract_text_from_pdf_bytes` returns for a conversion outcome. */
  function PdfText(converted: Option<seq<PageResult>>): string {
    match converted
    case None => ""
    case Some(pages) => Strip(Sections(pages, 0))
  }

  /** The sections of two runs of pages are the sections of the first run
      followed by those of the second, numbered on from where the first stopped. */
  lemma {:induction false} SectionsAppend(p: seq<PageResult>, q: seq<PageResult>, first: nat)
    ensures Sections(p + q, first) == Sections(p, first) + Sections(q, first + |p|)
    decreases |p|
  {
    if |p| > 0 {
      var head := PageSection(first, p[0]);
      assert (p + q)[0] == p[0];
      assert (p + q)[1..] == p[1..] + q;
      SectionsAppend(p[1..], q, first + 1);
      calc {
        Sections(p + q, first);
        head + Sections(p[1..] + q, first + 1);
        head + (Sections(p[1..], first + 1) + Sections(q, first + |p|));
        (head + Sections(p[1..], first + 1)) + Sections(q, first + |p|);
      }
    } else {
      assert p + q == q;
    }
  }

  /** Concatenation regroups freely. Stated on its own so that the proof of
      `PageInOrder` can regroup its three parts without unfolding them. */
  lemma ConcatAssoc(a: string, b: string, c: string)
    ensures a + (b + c) == a + b + c
  {
  }

  /** Adding one page at the end adds its section at the end. */
  lemma {:induction false} SectionsSnoc(p: seq<PageResult>, page: PageResult)
    ensures Sections(p + [page], 0) == Sections(p, 0) + PageSection(|p|, page)
  {
    var sec := PageSection(|p|, page);
    assert [page][1..] == [];
    assert Sections([page], |p|) == sec + Sections([], |p| + 1);
    assert sec + [] == sec;
    SectionsAppend(p, [page], 0);
  }

  /** Page `i` of a run contributes its own section at its own position: the
      sections before it, then its section, then the sections after it. */
  lemma {:induction false} PageInOrder(pages: seq<PageResult>, i: nat)
    requires i < |pages|
    ensures Sections(pages, 0) ==
            Sections(pages[..i], 0) + PageSection(i, pages[i]) + Sections(pages[i + 1..], i + 1)
  {
    var tail := pages[i..];
    assert pages == pages[..i] + tail;
    SectionsAppend(pages[..i], tail, 0);
    assert tail[0] == pages[i] && tail[1..] == pages[i + 1..];
    var before, section, after := Sections(pages[..i], 0), PageSection(i, pages[i]), Sections(pages[i + 1..], i + 1);
    assert Sections(tail, i) == section + after;
    ConcatAssoc(before, section, after);
  }

  /** A section starts with a line break and then a dash. */
  lemma SectionStartsWithDash(i: nat, page: PageResult)
    ensures |PageSection(i, page)| >= 2
    ensures PageSection(i, page)[0] == '\n' && PageSection(i, page)[1] == '-'
  {
  }

  /** A PDF that converts to no pages, or fails to convert, yields "". */
  lemma PdfTextEmptyWithoutPages(converted: Option<seq<PageResult>>)
    requires converted.None? || converted == Some([])
    ensures PdfText(converted) == ""
  {
  }

  /** A PDF that converts to at least one page always yields text that is
      not blank, even after stripping again: the first page header survives. */
  lemma PdfTextNotBlankWithPages(pages: seq<PageResult>)
    requires |pages| > 0
    ensures PdfText(Some(pages)) != ""
    ensures Strip(PdfText(Some(pages))) != ""
  {
    var full := Sections(pages, 0);
    SectionStartsWithDash(0, pages[0]);
    assert full[1] == PageSection(0, pages[0])[1];
    StripKeepsNonSpace(full, 1);
    StripIdempotent(full);
  }

  /** `extract_text_from_pdf_bytes`: appends one section per page, in page
      order, and strips the result; a failed conversion yields "". */
  method ExtractTextFromPdfBytes(converted: Option<seq<PageResult>>) returns (text: string)
    ensures text == PdfText(converted)
  {
    var fullText := "";
    match converted {
      case None =>
        return "";
      case Some(images) =>
        for i := 0 to |images|
          invariant fullText == Sections(images[..i], 0)
        {
          var section;
          match images[i] {
            case Rendered(ocr) =>
              var pageText := ExtractTextFromImageBytes(ocr);
              section := PageHeader(i + 1) + pageText;
            case EncodingFailed =>
              section := PageErrorHeader(i + 1);
          }
          assert images[..i + 1] == images[..i] + [images[i]];
          SectionsSnoc(images[..i], images[i]);
          fullText := fullText + section;
        }
        assert images[..|images|] == images;
        return Strip(fullText);
    }
  }
}
