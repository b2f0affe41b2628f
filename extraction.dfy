/**
 * `extract_text` (utils.py): choose a parser by the file name's suffix and
 * assemble the text it yields. The parsers themselves (python-docx and pypdf)
 * are not modelled; an `Upload` carries what each would produce for the file.
 */
module Extraction {
  import opened Wrappers
  import opened Strings

  /** What one PDF page's `extract_text()` gives: some text, `None`, or an exception. */
  datatype PageText = Text(text: string) | NoText | PageRaises(message: string)

  /**
   * An uploaded file: its name, what `Document(file)` would give (the paragraph
   * texts, or the message of the exception it raises) and what `PdfReader(file)`
   * would give (the pages, or the message of the exception it raises).
   */
  datatype Upload = Upload(
    name: string,
    docx: Result<seq<string>, string>,
    pdf: Result<seq<PageText>, string>)

  const DocxSuffix := ".docx"
  const PdfSuffix := ".pdf"
  const ErrorPrefix := "Error reading file: "

  /** `page.extract_text() or ""`, for a page that does not raise. */
  function PageContribution(p: PageText): string
  {
    if p.Text? then p.text else ""
  }

  /** The text the PDF loop accumulates over `pages`, or the message of the first page that raises. */
  function PdfText(pages: seq<PageText>): Result<string, string>
    decreases |pages|
  {
    if pages == [] then Success("")
    else
      match PdfText(pages[..|pages| - 1])
      case Failure(e) => Failure(e)
      case Success(text) =>
        var last := pages[|pages| - 1];
        if last.PageRaises? then Failure(last.message) else Success(text + PageContribution(last))
  }

  /** The value `extract_text` returns for `f`. */
  function ExtractedText(f: Upload): string
  {
    if EndsWith(f.name, DocxSuffix) then
      match f.docx
      case Success(paragraphs) => Join(paragraphs, "\n")
      case Failure(e) => ErrorPrefix + e
    else if EndsWith(f.name, PdfSuffix) then
      match f.pdf
      case Failure(e) => ErrorPrefix + e
      case Success(pages) =>
        match PdfText(pages)
        case Success(text) => text
        case Failure(e) => ErrorPrefix + e
    else ""
  }

  /** The PDF branch's loop: append each page's text, in page order. */
  method ReadPages(pages: seq<PageText>) returns (r: Result<string, string>)
    ensures r == PdfText(pages)
  {
    var text := "";
    for i := 0 to |pages|
      invariant PdfText(pages[..i]) == Success(text)
    {
      var prefix := pages[..i + 1];
      assert prefix[..i] == pages[..i] && prefix[i] == pages[i];
      match pages[i]
      case PageRaises(e) =>
        PdfTextStaysFailed(pages, i + 1);
        return Failure(e);
      case Text(t) =>
        text := text + t;
      case NoText =>
        assert text + PageContribution(pages[i]) == text;
    }
    assert pages[..|pages|] == pages;
    r := Success(text);
  }

  /** Once a prefix of the pages has failed, later pages do not change the outcome. */
  lemma {:induction false} PdfTextStaysFailed(pages: seq<PageText>, k: nat)
    requires k <= |pages| && PdfText(pages[..k]).Failure?
    ensures PdfText(pages) == PdfText(pages[..k])
    decreases |pages|
  {
    if k < |pages| {
      var init := pages[..|pages| - 1];
      assert init[..k] == pages[..k];
      PdfTextStaysFailed(init, k);
    } else {
      assert pages[..k] == pages;
    }
  }

  method ExtractText(f: Upload) returns (text: string)
    ensures text == ExtractedText(f)
  {
    if EndsWith(f.name, DocxSuffix) {
      match f.docx
      case Success(paragraphs) =>
        return Join(paragraphs, "\n");
      case Failure(e) =>
        return ErrorPrefix + e;
    } else if EndsWith(f.name, PdfSuffix) {
      match f.pdf
      case Failure(e) =>
        return ErrorPrefix + e;
      case Success(pages) =>
        var r := ReadPages(pages);
        match r
        case Success(t) =>
          return t;
        case Failure(e) =>
          return ErrorPrefix + e;
    }
    return "";
  }

  /** The parser that `extract_text` calls raises for `f`. */
  predicate ParseFails(f: Upload)
  {
    if EndsWith(f.name, DocxSuffix) then f.docx.Failure?
    else if EndsWith(f.name, PdfSuffix) then f.pdf.Failure? || PdfText(f.pdf.value).Failure?
    else false
  }

  /** No name ends with both suffixes, so testing `.docx` first decides nothing by itself. */
  lemma SuffixesExclusive(name: string)
    ensures !(EndsWith(name, DocxSuffix) && EndsWith(name, PdfSuffix))
  {
    if EndsWith(name, DocxSuffix) {
      assert name[|name| - 1] == name[|name| - 5..][4] == 'x';
      if |PdfSuffix| <= |name| {
        assert name[|name| - 4..][3] == name[|name| - 1];
      }
    }
  }

  /** A file with neither suffix yields `""`. */
  lemma UnknownSuffixYieldsEmpty(f: Upload)
    requires !EndsWith(f.name, DocxSuffix) && !EndsWith(f.name, PdfSuffix)
    ensures ExtractedText(f) == ""
  {
  }

  /** The message of the exception the parser raises for `f`. */
  function FailureMessage(f: Upload): string
    requires ParseFails(f)
  {
    if EndsWith(f.name, DocxSuffix) then f.docx.error
    else if f.pdf.Failure? then f.pdf.error
    else PdfText(f.pdf.value).error
  }

  /** A parser exception becomes the text `"Error reading file: "` followed by its message. */
  lemma ParseFailureReported(f: Upload)
    requires ParseFails(f)
    ensures ExtractedText(f) == ErrorPrefix + FailureMessage(f)
    ensures StartsWith(ExtractedText(f), ErrorPrefix)
  {
    StartsWithConcat(ErrorPrefix, FailureMessage(f));
  }

  /** The `.docx` text is the paragraphs joined by newlines: `n` newline-free paragraphs give exactly `n - 1` newlines, and splitting on newlines recovers them. */
  lemma DocxParagraphsJoined(f: Upload)
    requires EndsWith(f.name, DocxSuffix) && f.docx.Success?
    requires f.docx.value != []
    requires forall i :: 0 <= i < |f.docx.value| ==> '\n' !in f.docx.value[i]
    ensures CountChar(ExtractedText(f), '\n') == |f.docx.value| - 1
    ensures Split(ExtractedText(f), '\n') == f.docx.value
  {
    JoinSeparatorCount(f.docx.value, '\n');
    SplitJoin(f.docx.value, '\n');
  }

  /** The page texts of `pages`, with a page without text contributing `""`. */
  function Contributions(pages: seq<PageText>): (r: seq<string>)
    ensures |r| == |pages|
    ensures forall i :: 0 <= i < |pages| ==> r[i] == PageContribution(pages[i])
  {
    seq(|pages|, i requires 0 <= i < |pages| => PageContribution(pages[i]))
  }

  /** When no page raises, the PDF text is the page texts concatenated in page order. */
  lemma {:induction false} PdfTextConcatenates(pages: seq<PageText>)
    requires forall i :: 0 <= i < |pages| ==> !pages[i].PageRaises?
    ensures PdfText(pages) == Success(Concat(Contributions(pages)))
    decreases |pages|
  {
    if pages != [] {
      var init := pages[..|pages| - 1];
      PdfTextConcatenates(init);
      assert Contributions(pages) == Contributions(init) + [PageContribution(pages[|pages| - 1])];
      ConcatSnoc(Contributions(init), PageContribution(pages[|pages| - 1]));
    }
  }

  /** The first page that raises decides the outcome; nothing after it is read. */
  lemma {:induction false} PdfFirstRaiseDecides(pages: seq<PageText>, k: nat)
    requires k < |pages| && pages[k].PageRaises?
    requires forall i :: 0 <= i < k ==> !pages[i].PageRaises?
    ensures PdfText(pages) == Failure(pages[k].message)
    decreases |pages|
  {
    var init := pages[..|pages| - 1];
    if k < |pages| - 1 {
      PdfFirstRaiseDecides(init, k);
    } else {
      PdfTextConcatenates(init);
    }
  }
}
