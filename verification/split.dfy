/**
 * Model of logic/split.py: `split_pdf` writes every page of the input to its
 * own file "split_page_<n>.pdf" in the output directory and, when asked,
 * runs each page file through Ghostscript (`_compress_with_ghostscript`),
 * keeping the result only when it saves at least 1%.
 *
 * The file system is a value: a map from file path to file size. The PDF
 * reader and writer and the Ghostscript process are opaque: one `PageStep`
 * per page says what they do.
 */
module Split {
  import opened Wrappers
  import opened Strings
  import Paths

  type FileSystem = map<string, nat>

  /** How the Ghostscript subprocess ends. */
  datatype GsRun =
    | GsExited(newSize: nat)        // exit status 0; the size of the file it wrote
    | GsFailed(stderr: string)      // CalledProcessError, with the decoded standard error
    | GsNotStarted(message: string) // any other exception (the executable is missing, say), by its text

  /** What `_compress_with_ghostscript` reports: True, False, or an exception with its text. */
  datatype GsResult = KeptCompressed | NotWorthIt | GsRaised(message: string)

  datatype GsOutcome = GsOutcome(result: GsResult, fs: FileSystem)

  /** The `-dPDFSETTINGS` preset for a level; unknown levels get the "medium" one. */
  function GsPreset(level: string): (preset: string)
    ensures preset == "/printer" <==> level == "high"
    ensures preset == "/screen" <==> level == "low"
    ensures preset == "/ebook" <==> level != "high" && level != "low"
  {
    if level == "high" then "/printer"
    else if level == "low" then "/screen"
    else "/ebook"
  }

  /** Where Ghostscript writes before the result is judged. */
  function TempPath(pdfPath: string): string {
    pdfPath + "_temp"
  }

  /** The argument list of the Ghostscript command. */
  function GhostscriptArgs(pdfPath: string, level: string): seq<string> {
    ["gswin64c", "-q", "-dNOPAUSE", "-dBATCH", "-sDEVICE=pdfwrite",
     "-dPDFSETTINGS=" + GsPreset(level), "-sOutputFile=" + TempPath(pdfPath), pdfPath]
  }

  /** The temporary output is never the file being compressed, so Ghostscript does not overwrite its input. */
  lemma TempPathIsNotInput(pdfPath: string)
    ensures TempPath(pdfPath) != pdfPath
    ensures GhostscriptArgs(pdfPath, "medium")[6] != "-sOutputFile=" + pdfPath
  {
    assert |TempPath(pdfPath)| == |pdfPath| + 5;
  }

  /** The keep rule: the new size is below 0.99 times the original, i.e. at least 1% smaller. */
  predicate SavesEnough(newSize: nat, originalSize: nat) {
    100 * newSize < 99 * originalSize
  }

  const UnknownGsError := "Unknown Ghostscript error"

  /** The text of the RuntimeError raised for a failed Ghostscript run. */
  function GsFailureMessage(stderr: string): (m: string)
    ensures Strip(stderr) != [] ==> m == "Compression failed: " + Strip(stderr)
    ensures Strip(stderr) == [] ==> m == "Compression failed: " + UnknownGsError
  {
    var detail := Strip(stderr);
    "Compression failed: " + (if detail == [] then UnknownGsError else detail)
  }

  /**
   * `_compress_with_ghostscript(pdf_path, level)`. The compressed copy replaces
   * the file only when it is at least 1% smaller; the temporary file is gone
   * afterwards, whatever happened; no other file changes.
   */
  function GhostscriptCompress(fs: FileSystem, pdfPath: string, level: string, run: GsRun): (out: GsOutcome)
    requires pdfPath in fs
    ensures out.result == KeptCompressed <==> run.GsExited? && SavesEnough(run.newSize, fs[pdfPath])
    ensures out.result == NotWorthIt <==> run.GsExited? && !SavesEnough(run.newSize, fs[pdfPath])
    ensures run.GsFailed? ==> out.result == GsRaised(GsFailureMessage(run.stderr))
    ensures run.GsNotStarted? ==> out.result == GsRaised(run.message)
    ensures out.fs.Keys == fs.Keys - {TempPath(pdfPath)}
    ensures out.fs[pdfPath] == (if out.result == KeptCompressed then run.newSize else fs[pdfPath])
    ensures out.fs[pdfPath] <= fs[pdfPath]
    ensures forall p :: p in out.fs && p != pdfPath ==> out.fs[p] == fs[p]
  {
    TempPathIsNotInput(pdfPath);
    var temp := TempPath(pdfPath);
    match run
    case GsExited(newSize) =>
      // Ghostscript wrote the temporary file; it replaces the input or is removed
      var written := fs[temp := newSize];
      if SavesEnough(newSize, fs[pdfPath]) then GsOutcome(KeptCompressed, (written - {temp})[pdfPath := newSize])
      else GsOutcome(NotWorthIt, written - {temp})
    case GsFailed(stderr) => GsOutcome(GsRaised(GsFailureMessage(stderr)), fs - {temp})
    case GsNotStarted(message) => GsOutcome(GsRaised(message), fs - {temp})
  }

  /** What the reader, the writer and Ghostscript do with one page. */
  datatype PageStep = PageStep(
    write: Result<nat>,   // Ok(size of the page file) or Err(text of the exception)
    partial: Option<nat>, // after a failed write: the size of the truncated file `open(..., 'wb')` left, None when it was never opened
    gs: GsRun)            // consulted only when compressing

  /** The input once it exists: opening and reading it either fails or yields its pages. */
  datatype SplitInput = OpenFails(message: string) | Opened(pages: seq<PageStep>)

  function PageName(i: nat): string {
    "split_page_" + NatToString(i + 1) + ".pdf"
  }

  /** The file page `i` (counted from 0) is written to. */
  function PagePath(outputDir: string, i: nat): string {
    Paths.Join(outputDir, PageName(i))
  }

  /** The index of the first page whose file cannot be written, or the page count. */
  function FirstWriteFailure(pages: seq<PageStep>): (k: nat)
    ensures k <= |pages|
    ensures forall i :: 0 <= i < k ==> pages[i].write.Ok?
    ensures k < |pages| ==> pages[k].write.Err?
  {
    if pages == [] then 0
    else if pages[0].write.Err? then 0
    else 1 + FirstWriteFailure(pages[1..])
  }

  /** The file system after page `i` was written and, when asked, compressed. */
  function PageFs(fs: FileSystem, outputDir: string, compress: bool, level: string, i: nat, page: PageStep): FileSystem
    requires page.write.Ok?
  {
    var path := PagePath(outputDir, i);
    var written := fs[path := page.write.value];
    if compress then GhostscriptCompress(written, path, level, page.gs).fs else written
  }

  /** The file system after the first `m` pages. */
  function SplitFs(fs: FileSystem, outputDir: string, compress: bool, level: string, pages: seq<PageStep>, m: nat): FileSystem
    requires m <= |pages|
    requires forall i :: 0 <= i < m ==> pages[i].write.Ok?
  {
    if m == 0 then fs
    else PageFs(SplitFs(fs, outputDir, compress, level, pages, m - 1), outputDir, compress, level, m - 1, pages[m - 1])
  }

  /** The file system once page `i` has failed: the truncated page file, if it was opened. */
  function FailedPageFs(fs: FileSystem, outputDir: string, i: nat, page: PageStep): FileSystem {
    match page.partial
    case Some(size) => fs[PagePath(outputDir, i) := size]
    case None => fs
  }

  /** The file system the page loop leaves: the pages before the first failure, then the failed page's remains. */
  function WrittenFs(fs: FileSystem, outputDir: string, compress: bool, level: string, pages: seq<PageStep>): FileSystem {
    var k := FirstWriteFailure(pages);
    var done := SplitFs(fs, outputDir, compress, level, pages, k);
    if k < |pages| then FailedPageFs(done, outputDir, k, pages[k]) else done
  }

  function PageCallbacks(m: nat, total: nat): seq<(nat, nat)> {
    seq(m, i requires 0 <= i < m => (i + 1, total))
  }

  const FailurePrefix := "Failed to split PDF: "

  function SuccessMessage(total: nat, compress: bool): string {
    "Split into " + NatToString(total) + " files. Compressed: " + (if compress then "True" else "False")
  }

  /**
   * The page loop of `split_pdf`: the pages are written (and compressed) in
   * order until one cannot be written, which leaves its truncated file
   * when the file was already opened. Ghostscript errors on a page are
   * reported and the loop goes on. The callback hears (n, total) after page n.
   */
  method WritePages(fs: FileSystem, outputDir: string, compress: bool, level: string,
                    hasCallback: bool, pages: seq<PageStep>)
    returns (fs': FileSystem, callbacks: seq<(nat, nat)>, failure: Option<string>)
    ensures var k := FirstWriteFailure(pages);
      && fs' == WrittenFs(fs, outputDir, compress, level, pages)
      && callbacks == (if hasCallback then PageCallbacks(k, |pages|) else [])
      && failure == (if k < |pages| then Some(pages[k].write.message) else None)
  {
    var total := |pages|;
    fs' := fs;
    callbacks := [];
    var i := 0;
    while i < total
      invariant 0 <= i <= FirstWriteFailure(pages)
      invariant fs' == SplitFs(fs, outputDir, compress, level, pages, i)
      invariant callbacks == (if hasCallback then PageCallbacks(i, total) else [])
    {
      if pages[i].write.Err? {
        assert i == FirstWriteFailure(pages);
        if pages[i].partial.Some? {
          fs' := fs'[PagePath(outputDir, i) := pages[i].partial.value];
        }
        return fs', callbacks, Some(pages[i].write.message);
      }
      fs' := WritePage(fs', outputDir, compress, level, i, pages[i]);
      assert fs' == SplitFs(fs, outputDir, compress, level, pages, i + 1);
      if hasCallback {
        assert PageCallbacks(i + 1, total) == PageCallbacks(i, total) + [(i + 1, total)];
        callbacks := callbacks + [(i + 1, total)];
      }
      i := i + 1;
    }
    failure := None;
  }

  /** One pass of the page loop: the page file is written, then compressed when asked. */
  method WritePage(fs: FileSystem, outputDir: string, compress: bool, level: string, i: nat, page: PageStep)
    returns (fs': FileSystem)
    requires page.write.Ok?
    ensures fs' == PageFs(fs, outputDir, compress, level, i, page)
    ensures PagePath(outputDir, i) in fs' || compress
  {
    var outputPath := PagePath(outputDir, i);
    fs' := fs[outputPath := page.write.value];
    if compress {
      // a Ghostscript error is reported and the split goes on
      var outcome := GhostscriptCompress(fs', outputPath, level, page.gs);
      fs' := outcome.fs;
    }
  }

  /**
   * `split_pdf`. A missing input fails before anything is written; an input
   * that cannot be opened fails with the reader's error; otherwise the result
   * is that of the page loop, with the page count in the success message.
   */
  method SplitPdf(fs: FileSystem, inputPdf: string, outputDir: string, compress: bool, level: string,
                  hasCallback: bool, input: SplitInput)
    returns (ok: bool, message: string, fs': FileSystem, callbacks: seq<(nat, nat)>)
    ensures inputPdf !in fs ==>
      !ok && message == FailurePrefix + "Input PDF not found: " + inputPdf && fs' == fs && callbacks == []
    ensures inputPdf in fs && input.OpenFails? ==>
      !ok && message == FailurePrefix + input.message && fs' == fs && callbacks == []
    ensures inputPdf in fs && input.Opened? ==>
      var pages := input.pages;
      var k := FirstWriteFailure(pages);
      && (ok <==> k == |pages|)
      && fs' == WrittenFs(fs, outputDir, compress, level, pages)
      && callbacks == (if hasCallback then PageCallbacks(k, |pages|) else [])
      && message == (if k == |pages| then SuccessMessage(|pages|, compress) else FailurePrefix + pages[k].write.message)
  {
    if inputPdf !in fs {
      return false, FailurePrefix + "Input PDF not found: " + inputPdf, fs, [];
    }
    if input.OpenFails? {
      return false, FailurePrefix + input.message, fs, [];
    }
    var failure;
    fs', callbacks, failure := WritePages(fs, outputDir, compress, level, hasCallback, input.pages);
    if failure.Some? {
      ok, message := false, FailurePrefix + failure.value;
    } else {
      ok, message := true, SuccessMessage(|input.pages|, compress);
    }
  }

  /** Different pages are written to different files. */
  lemma PagePathInjective(outputDir: string, i: nat, j: nat)
    requires PagePath(outputDir, i) == PagePath(outputDir, j)
    ensures i == j
  {
    Paths.JoinInjective(outputDir, PageName(i), PageName(j));
    var a, b := NatToString(i + 1), NatToString(j + 1);
    assert |a| == |b|;
    assert a == PageName(i)[11..11 + |a|] == PageName(j)[11..11 + |b|] == b;
    NatToStringInjective(i + 1, j + 1);
  }

  /** A page file is never some file's temporary Ghostscript output: one ends in 'f', the other in 'p'. */
  lemma PagePathIsNoTemp(outputDir: string, i: nat, p: string)
    ensures PagePath(outputDir, i) != TempPath(p)
  {
    Paths.JoinEndsWith(outputDir, PageName(i));
    var q := PagePath(outputDir, i);
    assert q[|q| - 1] == PageName(i)[|PageName(i)| - 1] == 'f';
  }

  /**
   * After the first `m` pages, each of them has its own file: as written, or,
   * when compressing, no larger than written, with no temporary file left
   * beside it.
   */
  lemma {:induction false} SplitFsPages(fs: FileSystem, outputDir: string, compress: bool, level: string,
                                        pages: seq<PageStep>, m: nat)
    requires m <= |pages|
    requires forall i :: 0 <= i < m ==> pages[i].write.Ok?
    ensures var r := SplitFs(fs, outputDir, compress, level, pages, m);
      forall i :: 0 <= i < m ==>
        && PagePath(outputDir, i) in r
        && (!compress ==> r[PagePath(outputDir, i)] == pages[i].write.value)
        && (compress ==> r[PagePath(outputDir, i)] <= pages[i].write.value)
        && (compress ==> TempPath(PagePath(outputDir, i)) !in r)
  {
    if m > 0 {
      SplitFsPages(fs, outputDir, compress, level, pages, m - 1);
      var prev := SplitFs(fs, outputDir, compress, level, pages, m - 1);
      var r := SplitFs(fs, outputDir, compress, level, pages, m);
      var last := PagePath(outputDir, m - 1);
      assert r == PageFs(prev, outputDir, compress, level, m - 1, pages[m - 1]);
      PageFsFrame(prev, outputDir, compress, level, m - 1, pages[m - 1]);
      forall i | 0 <= i < m - 1
        ensures PagePath(outputDir, i) in r && r[PagePath(outputDir, i)] == prev[PagePath(outputDir, i)]
        ensures compress ==> TempPath(PagePath(outputDir, i)) !in r
      {
        if PagePath(outputDir, i) == last {
          PagePathInjective(outputDir, i, m - 1);
        }
        PagePathIsNoTemp(outputDir, i, last);
        PagePathIsNoTemp(outputDir, m - 1, PagePath(outputDir, i));
      }
    }
  }

  /**
   * Every file other than the page files keeps its size, except that
   * Ghostscript removes a stale temporary file of the same name as a page's.
   */
  lemma {:induction false} SplitFsKeepsOthers(fs: FileSystem, outputDir: string, compress: bool, level: string,
                                              pages: seq<PageStep>, m: nat)
    requires m <= |pages|
    requires forall i :: 0 <= i < m ==> pages[i].write.Ok?
    ensures var r := SplitFs(fs, outputDir, compress, level, pages, m);
      forall p :: p in fs && (forall i :: 0 <= i < m ==> p != PagePath(outputDir, i) && p != TempPath(PagePath(outputDir, i)))
        ==> p in r && r[p] == fs[p]
  {
    if m > 0 {
      SplitFsKeepsOthers(fs, outputDir, compress, level, pages, m - 1);
      var prev := SplitFs(fs, outputDir, compress, level, pages, m - 1);
      var r := SplitFs(fs, outputDir, compress, level, pages, m);
      assert r == PageFs(prev, outputDir, compress, level, m - 1, pages[m - 1]);
      PageFsFrame(prev, outputDir, compress, level, m - 1, pages[m - 1]);
      forall p | p in fs && (forall i :: 0 <= i < m ==> p != PagePath(outputDir, i) && p != TempPath(PagePath(outputDir, i)))
        ensures p in r && r[p] == fs[p]
      {
        assert p in prev && prev[p] == fs[p];
        assert p != PagePath(outputDir, m - 1) && p != TempPath(PagePath(outputDir, m - 1));
      }
    }
  }

  /** Writing one page touches only its own file and that file's temporary name. */
  lemma PageFsFrame(fs: FileSystem, outputDir: string, compress: bool, level: string, i: nat, page: PageStep)
    requires page.write.Ok?
    ensures var r, path := PageFs(fs, outputDir, compress, level, i, page), PagePath(outputDir, i);
      && path in r
      && (!compress ==> r[path] == page.write.value)
      && (compress ==> r[path] <= page.write.value && TempPath(path) !in r)
      && (forall p :: p in fs && p != path && p != TempPath(path) ==> p in r && r[p] == fs[p])
      && (forall p :: p in r && p != path ==> p in fs)
  {
    var path := PagePath(outputDir, i);
    TempPathIsNotInput(path);
  }

  /**
   * A split that fails at a page keeps the files of the pages before it, and
   * leaves the failing page's truncated file exactly when the file had been
   * opened; a successful split leaves exactly the file system of its pages.
   */
  lemma FailedSplitLeavesPartialPage(fs: FileSystem, outputDir: string, compress: bool, level: string,
                                     pages: seq<PageStep>)
    ensures var k, r := FirstWriteFailure(pages), WrittenFs(fs, outputDir, compress, level, pages);
      && (forall i :: 0 <= i < k ==> PagePath(outputDir, i) in r)
      && (k < |pages| && pages[k].partial.Some? ==>
            PagePath(outputDir, k) in r && r[PagePath(outputDir, k)] == pages[k].partial.value)
      && (k < |pages| && pages[k].partial.None? ==> r == SplitFs(fs, outputDir, compress, level, pages, k))
      && (k == |pages| ==> r == SplitFs(fs, outputDir, compress, level, pages, |pages|))
  {
    SplitFsPages(fs, outputDir, compress, level, pages, FirstWriteFailure(pages));
  }

  /**
   * A split that succeeds leaves one file per page in the output directory,
   * and, when compressing, no temporary file beside any of them.
   */
  lemma SplitWritesEveryPage(fs: FileSystem, outputDir: string, compress: bool, level: string, pages: seq<PageStep>)
    requires FirstWriteFailure(pages) == |pages|
    ensures forall i :: 0 <= i < |pages| ==>
      PagePath(outputDir, i) in WrittenFs(fs, outputDir, compress, level, pages)
    ensures compress ==> forall i :: 0 <= i < |pages| ==>
      TempPath(PagePath(outputDir, i)) !in WrittenFs(fs, outputDir, compress, level, pages)
  {
    SplitFsPages(fs, outputDir, compress, level, pages, |pages|);
  }
}
