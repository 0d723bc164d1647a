/**
 * Model of logic/ocr.py: `ocr_pdf` recognises the text of every page of a PDF
 * and saves it as a Word document (one paragraph per page, a page break after
 * every page but the last) or as an RTF file (a fixed header, the page texts
 * with line breaks turned into `\par`, `\page` between pages), named
 * "OCR_<input stem>.<format>" in the output directory.
 *
 * Opening the PDF, recognising a page and saving the document are opaque:
 * the input says whether the PDF opens and, if it does, the text recognised
 * on each page, the first page (if any) whose rendering or recognition
 * raises, and whether the save raises.
 */
module Ocr {
  import opened Wrappers
  import opened Strings
  import Paths

  /** Page `page` (0-based) raises `message` while it is loaded, rendered or recognised. */
  datatype PageError = PageError(page: nat, message: string)

  /**
   * The PDF as the renderer, the recogniser and the writer see it. The texts
   * of the pages from a failing page on are never used.
   */
  datatype OcrInput =
    | OpenFails(message: string)
    | Opened(pageTexts: seq<string>, pageError: Option<PageError>, saveError: Option<string>)

  /** A Word paragraph holding one page's text, optionally followed by a page break. */
  datatype Paragraph = Paragraph(text: string, pageBreak: bool)

  datatype OcrDocument = Docx(paragraphs: seq<Paragraph>) | Rtf(content: string)

  /** The path returned with the saved document, or the exception raised. */
  datatype OcrResult =
    | OcrSaved(outputPath: string, document: OcrDocument)
    | FileNotFound(message: string)
    | OpenFailed(message: string)
    | UnsupportedFormat(message: string)
    | Raised(message: string)        // a page or the save raised after the page loop began

  /** The first header line, written in pieces. */
  const RtfFontLine := @"{\rtf1\ansi" + @"\ansicpg1252" + @"\deff0\nouicompat" + @"{\fonttbl{\f0\fnil Arial;}}"

  const RtfHeader: seq<string> := [
    RtfFontLine,
    @"{\colortbl ;\red0\green0\blue0;}",
    @"\viewkind4\uc1\pard\f0\fs24"]

  const PageBreak := @"\page"
  const UnsupportedMessage := "Unsupported format. Use 'docx' or 'rtf'"

  /** A page text as written into the RTF file: every newline becomes `\par `. */
  function Escape(text: string): string {
    ReplaceAll(text, "\n", @"\par ")
  }

  /** The Word paragraphs of the first `m` pages. */
  function DocxParagraphs(texts: seq<string>, m: nat): seq<Paragraph>
    requires m <= |texts|
  {
    seq(m, i requires 0 <= i < m => Paragraph(texts[i], i < |texts| - 1))
  }

  /** The RTF lines of the first `m` pages: each escaped text, and `\page` after every page but the last. */
  function RtfLines(texts: seq<string>, m: nat): seq<string>
    requires m <= |texts|
  {
    if m == 0 then []
    else RtfLines(texts, m - 1) + [Escape(texts[m - 1])] + (if m - 1 < |texts| - 1 then [PageBreak] else [])
  }

  /** The lines of the RTF file: the header, the pages, the closing brace. */
  function RtfFileLines(texts: seq<string>): seq<string> {
    RtfHeader + RtfLines(texts, |texts|) + ["}"]
  }

  /** The text of the RTF file. */
  function RtfContent(texts: seq<string>): string {
    Join(RtfFileLines(texts), "\n")
  }

  /** How many pages the loop completes: all of them, or those before the failing page. */
  function PagesDone(texts: seq<string>, pageError: Option<PageError>): (k: nat)
    ensures k <= |texts|
    ensures k < |texts| <==> pageError.Some? && pageError.value.page < |texts|
  {
    if pageError.Some? && pageError.value.page < |texts| then pageError.value.page else |texts|
  }

  /** The reports after each of the first `m` pages. */
  function PageCallbacks(total: nat, m: nat): seq<(nat, nat)> {
    seq(m, i requires 0 <= i < m => (i + 1, total))
  }

  /** The progress reports: 0 first, then after every page, then the total once more. */
  function OcrCallbacks(total: nat): seq<(nat, nat)> {
    [(0, total)] + PageCallbacks(total, total) + [(total, total)]
  }

  /** The reports made before a failure after `m` completed pages. */
  function PartialCallbacks(total: nat, m: nat): seq<(nat, nat)> {
    [(0, total)] + PageCallbacks(total, m)
  }

  /** "OCR_<stem of the input's base name>.<format>" in the output directory. */
  function OutputPath(inputPath: string, outputDir: string, format: string): string {
    Paths.Join(outputDir, "OCR_" + Paths.Stem(Paths.Basename(inputPath)) + "." + format)
  }

  /**
   * The page loop of `ocr_pdf`: each page's text becomes a Word paragraph
   * (with a page break unless it is the last page) or an escaped RTF line
   * (followed by `\page` unless it is the last page), and progress is
   * reported after every page. A failing page ends the loop with its
   * exception, after the pages before it.
   */
  method AddPages(texts: seq<string>, pageError: Option<PageError>, format: string, hasCallback: bool)
    returns (paragraphs: seq<Paragraph>, rtfContent: seq<string>, callbacks: seq<(nat, nat)>, raised: Option<string>)
    ensures raised == (if PagesDone(texts, pageError) < |texts| then Some(pageError.value.message) else None)
    ensures format == "docx" ==> paragraphs == DocxParagraphs(texts, PagesDone(texts, pageError))
    ensures format != "docx" ==> rtfContent == RtfHeader + RtfLines(texts, PagesDone(texts, pageError))
    ensures callbacks == if hasCallback then PageCallbacks(|texts|, PagesDone(texts, pageError)) else []
  {
    var total := |texts|;
    paragraphs := [];
    rtfContent := RtfHeader;
    callbacks := [];
    raised := None;
    for pageNum := 0 to total
      invariant pageNum <= PagesDone(texts, pageError)
      invariant format == "docx" ==> paragraphs == DocxParagraphs(texts, pageNum)
      invariant format != "docx" ==> rtfContent == RtfHeader + RtfLines(texts, pageNum)
      invariant callbacks == if hasCallback then PageCallbacks(total, pageNum) else []
    {
      if pageError.Some? && pageError.value.page == pageNum {
        raised := Some(pageError.value.message);
        return;
      }
      var text := texts[pageNum];
      if format == "docx" {
        paragraphs := paragraphs + [Paragraph(text, pageNum < total - 1)];
      } else {
        rtfContent := rtfContent + [Escape(text)];
        if pageNum < total - 1 {
          rtfContent := rtfContent + [PageBreak];
        }
      }
      if hasCallback {
        callbacks := callbacks + [(pageNum + 1, total)];
      }
    }
  }

  /**
   * `ocr_pdf`. A missing input raises FileNotFoundError; the PDF is opened
   * before the format is checked, and a format other than "docx" or "rtf"
   * raises ValueError before any progress is reported. Otherwise every page
   * adds its text to the document, and the document is saved under
   * `OutputPath`; a failing page or save raises after the reports made so
   * far.
   */
  method OcrPdf(inputExists: bool, inputPath: string, outputDir: string, format: string,
                hasCallback: bool, input: OcrInput)
    returns (result: OcrResult, callbacks: seq<(nat, nat)>)
    ensures !inputExists ==> result == FileNotFound("Input PDF " + inputPath + " not found") && callbacks == []
    ensures inputExists && input.OpenFails? ==> result == OpenFailed(input.message) && callbacks == []
    ensures inputExists && input.Opened? && format != "docx" && format != "rtf" ==>
      result == UnsupportedFormat(UnsupportedMessage) && callbacks == []
    ensures inputExists && input.Opened? && (format == "docx" || format == "rtf") ==>
      result == TranscribeResult(input.pageTexts, input.pageError, input.saveError, inputPath, outputDir, format)
      && callbacks == TranscribeCallbacks(input.pageTexts, input.pageError, input.saveError, hasCallback)
  {
    if !inputExists {
      return FileNotFound("Input PDF " + inputPath + " not found"), [];
    }
    if input.OpenFails? {
      return OpenFailed(input.message), [];
    }
    if format != "docx" && format != "rtf" {
      return UnsupportedFormat(UnsupportedMessage), [];
    }
    result, callbacks := Transcribe(input.pageTexts, input.pageError, input.saveError, inputPath, outputDir,
                                    format, hasCallback);
  }

  /**
   * What `ocr_pdf` ends with once the PDF is open and the format supported:
   * the failing page's exception, else the save's, else the saved document.
   */
  function TranscribeResult(texts: seq<string>, pageError: Option<PageError>, saveError: Option<string>,
                            inputPath: string, outputDir: string, format: string): OcrResult
    requires format == "docx" || format == "rtf"
  {
    if PagesDone(texts, pageError) < |texts| then Raised(pageError.value.message)
    else if saveError.Some? then Raised(saveError.value)
    else if format == "docx" then OcrSaved(OutputPath(inputPath, outputDir, format), Docx(DocxParagraphs(texts, |texts|)))
    else OcrSaved(OutputPath(inputPath, outputDir, format), Rtf(RtfContent(texts)))
  }

  /** The reports made by then: all of them after a save, else those before the exception. */
  function TranscribeCallbacks(texts: seq<string>, pageError: Option<PageError>, saveError: Option<string>,
                               hasCallback: bool): seq<(nat, nat)>
  {
    if !hasCallback then []
    else if PagesDone(texts, pageError) == |texts| && saveError.None? then OcrCallbacks(|texts|)
    else PartialCallbacks(|texts|, PagesDone(texts, pageError))
  }

  /**
   * The rest of `ocr_pdf` once the PDF is open and the format supported:
   * progress 0 is reported, the pages are added, the document is saved, and
   * the total is reported once more.
   */
  method Transcribe(texts: seq<string>, pageError: Option<PageError>, saveError: Option<string>,
                    inputPath: string, outputDir: string, format: string, hasCallback: bool)
    returns (result: OcrResult, callbacks: seq<(nat, nat)>)
    requires format == "docx" || format == "rtf"
    ensures PagesDone(texts, pageError) < |texts| ==> result == Raised(pageError.value.message)
    ensures PagesDone(texts, pageError) == |texts| && saveError.Some? ==> result == Raised(saveError.value)
    ensures PagesDone(texts, pageError) == |texts| && saveError.None? && format == "docx" ==>
      result == OcrSaved(OutputPath(inputPath, outputDir, format), Docx(DocxParagraphs(texts, |texts|)))
    ensures PagesDone(texts, pageError) == |texts| && saveError.None? && format == "rtf" ==>
      result == OcrSaved(OutputPath(inputPath, outputDir, format), Rtf(RtfContent(texts)))
    ensures callbacks == TranscribeCallbacks(texts, pageError, saveError, hasCallback)
  {
    var total := |texts|;
    var paragraphs, rtfContent, pageCallbacks, raised := AddPages(texts, pageError, format, hasCallback);
    callbacks := if hasCallback then [(0, total)] + pageCallbacks else [];
    if raised.Some? {
      return Raised(raised.value), callbacks;
    }
    var outputPath := OutputPath(inputPath, outputDir, format);
    if saveError.Some? {
      return Raised(saveError.value), callbacks;
    }
    if format == "docx" {
      result := OcrSaved(outputPath, Docx(paragraphs));
    } else {
      rtfContent := rtfContent + ["}"];
      assert rtfContent == RtfFileLines(texts);
      result := OcrSaved(outputPath, Rtf(Join(rtfContent, "\n")));
    }
    if hasCallback {
      callbacks := callbacks + [(total, total)];
    }
  }

  /**
   * The reports made before an exception are a prefix of those of a
   * complete run: one for the start, then one per completed page.
   */
  lemma PartialCallbacksPrefix(total: nat, m: nat)
    requires m <= total
    ensures PartialCallbacks(total, m) == OcrCallbacks(total)[..m + 1]
    ensures |PartialCallbacks(total, m)| == m + 1
    ensures PartialCallbacks(total, m)[m] == (m, total)
  {
    var full := OcrCallbacks(total);
    forall i | 0 <= i < m + 1 ensures PartialCallbacks(total, m)[i] == full[i] {
      if i > 0 {
        assert full[i] == PageCallbacks(total, total)[i - 1];
      }
    }
  }

  /** An escaped page text holds no newline, so each page stays on one line of the RTF file. */
  lemma EscapeHasNoNewline(text: string)
    ensures '\n' !in Escape(text)
  {
    assert @"\par " == ['\\', 'p', 'a', 'r', ' '];
    ReplaceAllRemoves(text, '\n', @"\par ");
  }

  /**
   * The page lines alternate: page i's escaped text at position 2i, `\page`
   * after it unless it is the last page, and nothing else.
   */
  lemma {:induction false} RtfLinesShape(texts: seq<string>, m: nat)
    requires m <= |texts|
    ensures |RtfLines(texts, m)| == (if m == |texts| && m > 0 then 2 * m - 1 else 2 * m)
    ensures forall i :: 0 <= i < m ==> RtfLines(texts, m)[2 * i] == Escape(texts[i])
    ensures forall i :: 0 <= i < m && 2 * i + 1 < |RtfLines(texts, m)| ==> RtfLines(texts, m)[2 * i + 1] == PageBreak
  {
    if m > 0 {
      RtfLinesShape(texts, m - 1);
    }
  }

  /** No line of the RTF file holds a newline. */
  lemma {:induction false} RtfLinesNoNewline(texts: seq<string>, m: nat)
    requires m <= |texts|
    ensures forall j :: 0 <= j < |RtfLines(texts, m)| ==> '\n' !in RtfLines(texts, m)[j]
  {
    if m > 0 {
      RtfLinesNoNewline(texts, m - 1);
      EscapeHasNoNewline(texts[m - 1]);
      assert PageBreak == ['\\', 'p', 'a', 'g', 'e'];
    }
  }

  /** The first RTF header line holds no newline. */
  lemma FontLineHasNoNewline()
    ensures '\n' !in RtfHeader[0]
  {
    assert '\n' !in @"{\rtf1\ansi";
    assert '\n' !in @"\ansicpg1252";
    assert '\n' !in @"\deff0\nouicompat";
    assert '\n' !in @"{\fonttbl{\f0\fnil Arial;}}";
  }

  /** The RTF header lines hold no newline. */
  lemma HeaderHasNoNewline(j: nat)
    requires j < |RtfHeader|
    ensures '\n' !in RtfHeader[j]
  {
    if j == 0 {
      FontLineHasNoNewline();
    } else {
      assert '\n' !in RtfHeader[1] && '\n' !in RtfHeader[2];
    }
  }

  /** Reading the RTF file back line by line gives the header, the page lines and the closing brace. */
  lemma RtfFileRoundTrip(texts: seq<string>)
    ensures Split(RtfContent(texts), '\n') == RtfFileLines(texts)
  {
    var lines := RtfFileLines(texts);
    RtfLinesNoNewline(texts, |texts|);
    var pageLines := RtfLines(texts, |texts|);
    forall j | 0 <= j < |lines| ensures '\n' !in lines[j] {
      if j < 3 {
        assert lines[j] == RtfHeader[j];
        HeaderHasNoNewline(j);
      } else if j < 3 + |pageLines| {
        assert lines[j] == pageLines[j - 3];
        assert '\n' !in pageLines[j - 3];
      } else {
        assert lines[j] == "}";
      }
    }
    SplitJoin(lines, '\n');
  }

  /** Progress starts at 0, never goes back, ends at the page count, and reports completion twice. */
  lemma OcrCallbacksProgress(total: nat)
    ensures |OcrCallbacks(total)| == total + 2
    ensures OcrCallbacks(total)[0] == (0, total) && OcrCallbacks(total)[total + 1] == (total, total)
    ensures forall i, j :: 0 <= i <= j < total + 2 ==> OcrCallbacks(total)[i].0 <= OcrCallbacks(total)[j].0 <= total
    ensures total > 0 ==> OcrCallbacks(total)[total] == OcrCallbacks(total)[total + 1]
  {
    var cb := OcrCallbacks(total);
    assert forall i :: 0 <= i < total + 2 ==> cb[i].0 == (if i == total + 1 then total else i) && cb[i].1 == total;
  }

  /**
   * The output lands in the output directory and is named "OCR_" + the input's
   * base name without its extension + "." + the format.
   */
  lemma OutputPathName(inputPath: string, outputDir: string, format: string)
    requires '/' !in format
    ensures Paths.Basename(OutputPath(inputPath, outputDir, format))
      == "OCR_" + Paths.Stem(Paths.Basename(inputPath)) + "." + format
    ensures outputDir != [] && outputDir[|outputDir| - 1] != '/' ==>
      Paths.Dirname(OutputPath(inputPath, outputDir, format)) == outputDir
  {
    var stem := Paths.Stem(Paths.Basename(inputPath));
    var name := "OCR_" + stem + "." + format;
    assert forall c :: c in stem ==> c in Paths.Basename(inputPath);
    assert '/' !in name by {
      forall k | 0 <= k < |name| ensures name[k] != '/' {
        if k >= 4 + |stem| + 1 {
          assert name[k] == format[k - 5 - |stem|];
          assert format[k - 5 - |stem|] in format;
        } else if k >= 4 && k < 4 + |stem| {
          assert name[k] == stem[k - 4];
          assert stem[k - 4] in stem;
        }
      }
    }
    Paths.BasenameJoin(outputDir, name);
    if outputDir != [] && outputDir[|outputDir| - 1] != '/' {
      Paths.DirnameJoin(outputDir, name);
    }
  }
}
