/**
 * Model of gui/compression_ops.py: the batch compression front-end. The
 * class keeps the fields `start_compression`, `compress_files` and
 * `cancel_compression` update; the thread pool is replaced by the order in
 * which the submitted files complete, the result each one delivers, and the
 * moments at which the cancel button is pressed from the interface thread.
 */
module CompressionOps {
  import opened Wrappers
  import opened Strings
  import Compression

  /** What `process_single_file` delivers: `(success, original, compressed)`, or the exception it raised. */
  datatype FileOutcome =
    | Finished(success: bool, original: nat, compressed: nat)
    | Raised(message: string)

  /** The `stats` dictionary of `compress_files`. */
  datatype Stats = Stats(original: nat, compressed: nat, skipped: nat)

  /** One `_update_progress(i + 1, pdf_file)` call posted to the interface thread. */
  datatype ProgressUpdate = ProgressUpdate(progress: nat, file: string)

  /** What `start_compression` does with the dialog's values. */
  datatype StartResult = Started | InvalidInput | NoFiles

  // ----- input clamps -----

  /** `max(1, min(requested, 50))`: the batch size always lies in 1..50. */
  function ClampBatchSize(requested: int): (b: int)
    ensures 1 <= b <= 50
    ensures 1 <= requested <= 50 ==> b == requested
    ensures requested < 1 ==> b == 1
    ensures requested > 50 ==> b == 50
  {
    if requested < 1 then 1 else if requested > 50 then 50 else requested
  }

  /** `max(0.0, requested)`: a negative pause becomes no pause. */
  function ClampPause(requested: real): (p: real)
    ensures p >= 0.0
    ensures requested >= 0.0 ==> p == requested
    ensures requested < 0.0 ==> p == 0.0
  {
    if requested < 0.0 then 0.0 else requested
  }

  // ----- one file -----

  const CompressedSuffix := "_compressed.pdf"

  /** Where `process_single_file` asks `compress_pdf` to write: over the input, or beside it. */
  function OutputPathFor(pdfFile: string, deleteOriginal: bool): string
  {
    if deleteOriginal then pdfFile else ReplaceAll(pdfFile, ".pdf", CompressedSuffix)
  }

  /**
   * For a name ending in its only ".pdf", the kept-original output replaces
   * that extension with "_compressed.pdf", a path other than the input;
   * deleting originals writes over the input itself.
   */
  lemma OutputPathOfPdf(base: string)
    requires forall i :: 0 <= i < |base| ==> !OccursAt(base + ".pdf", ".pdf", i)
    ensures OutputPathFor(base + ".pdf", false) == base + CompressedSuffix
    ensures OutputPathFor(base + ".pdf", false) != base + ".pdf"
    ensures OutputPathFor(base + ".pdf", true) == base + ".pdf"
  {
    ReplaceAllSuffix(base, ".pdf", CompressedSuffix);
    assert |base + CompressedSuffix| != |base + ".pdf"|;
  }

  /**
   * The replacement is case-sensitive while `find_pdfs` is not: a name with
   * no lower-case ".pdf" in it, such as one ending in ".PDF", keeps its path
   * when originals are kept, so `compress_pdf` is asked to save over its own
   * input without permission to overwrite it.
   */
  lemma KeptOriginalTargetIsInput(name: string)
    requires forall i :: !OccursAt(name, ".pdf", i)
    ensures OutputPathFor(name, false) == name
  {
    ReplaceAllAbsent(name, ".pdf", CompressedSuffix);
  }

  /** Such names exist among the ones `find_pdfs` returns: "SCAN.PDF" is one. */
  lemma UpperCaseExtensionTargetsInput()
    ensures Compression.IsPdfName("SCAN.PDF")
    ensures OutputPathFor("SCAN.PDF", false) == "SCAN.PDF"
  {
    var name := "SCAN.PDF";
    assert forall k :: 0 <= k < |name| ==> name[k] != 'f';
    forall i ensures !OccursAt(name, ".pdf", i) {
      if 0 <= i && i + 4 <= |name| {
        assert name[i..i + 4][3] == name[i + 3] != 'f';
      }
    }
    KeptOriginalTargetIsInput(name);
    assert Lower(name) == "scan.pdf";
  }

  /**
   * What pikepdf does when `compress_pdf` runs it on input `pdfFile`, saving
   * to the given output path, with or without leave to overwrite the input,
   * for each choice of save settings.
   */
  type PdfLibrary = (string, string, bool) -> (Compression.SaveSettings -> Compression.SaveOutcome)

  /** The library as `process_single_file` invokes it: onto `OutputPathFor`, overwriting exactly when originals are deleted. */
  function LibraryFor(pdfFile: string, deleteOriginal: bool, library: PdfLibrary): Compression.SaveSettings -> Compression.SaveOutcome
  {
    library(pdfFile, OutputPathFor(pdfFile, deleteOriginal), deleteOriginal)
  }

  /**
   * `process_single_file`: `size` is what `os.path.getsize` gives (Err when it
   * raises); a file below `min_size_kb` KiB is skipped with `(False, size, 0)`;
   * otherwise `compress_pdf` decides, run on `pdfFile` with the output path
   * and overwrite flag chosen by `deleteOriginal`, and a failure reports a
   * compressed size of 0.
   */
  function ProcessSingleFile(pdfFile: string, size: Result<nat>, minSizeKb: int, level: string,
                             deleteOriginal: bool, library: PdfLibrary): (r: FileOutcome)
    ensures r.Raised? <==> size.Err?
    ensures r.Finished? ==> r.original == size.value
    ensures size.Ok? && size.value < minSizeKb * 1024 ==> r == Finished(false, size.value, 0)
    ensures r.Finished? && r.success <==>
      size.Ok? && size.value >= minSizeKb * 1024 &&
      Compression.CompressPdf(true, size.value, level, library(pdfFile, OutputPathFor(pdfFile, deleteOriginal), deleteOriginal)).Ok?
    ensures r.Finished? && r.success ==>
      r.compressed == Compression.CompressPdf(true, size.value, level, library(pdfFile, OutputPathFor(pdfFile, deleteOriginal), deleteOriginal)).value
    ensures r.Finished? && !r.success ==> r.compressed == 0
  {
    match size
    case Err(message) => Raised(message)
    case Ok(originalSize) =>
      if originalSize < minSizeKb * 1024 then Finished(false, originalSize, 0)
      else
        match Compression.CompressPdf(true, originalSize, level, LibraryFor(pdfFile, deleteOriginal, library))
        case Ok(compressed) => Finished(true, originalSize, compressed)
        case Err(_) => Finished(false, originalSize, 0)
  }

  // ----- the completion loop, as functions of the first n completions -----

  predicate Succeeded(o: FileOutcome) {
    o.Finished? && o.success
  }

  /** The stats after the first `n` completions: a success adds its sizes, anything else one skip. */
  function Tally(outcomes: seq<FileOutcome>, n: nat): Stats
    requires n <= |outcomes|
  {
    if n == 0 then Stats(0, 0, 0)
    else
      var s := Tally(outcomes, n - 1);
      var o := outcomes[n - 1];
      if Succeeded(o) then Stats(s.original + o.original, s.compressed + o.compressed, s.skipped)
      else Stats(s.original, s.compressed, s.skipped + 1)
  }

  /** How many of the first `n` completions succeeded. */
  function Successes(outcomes: seq<FileOutcome>, n: nat): nat
    requires n <= |outcomes|
  {
    if n == 0 then 0 else Successes(outcomes, n - 1) + (if Succeeded(outcomes[n - 1]) then 1 else 0)
  }

  /** The progress updates posted for the first `n` completions: one for each that did not raise. */
  function Updates(completions: seq<string>, outcomes: seq<FileOutcome>, n: nat): seq<ProgressUpdate>
    requires n <= |completions| == |outcomes|
  {
    if n == 0 then []
    else Updates(completions, outcomes, n - 1) + (if outcomes[n - 1].Raised? then [] else [ProgressUpdate(n, completions[n - 1])])
  }

  /** The 1-based counts after which the loop sleeps: multiples of the batch size whose result did not raise. */
  function Pauses(outcomes: seq<FileOutcome>, batchSize: int, n: nat): seq<nat>
    requires n <= |outcomes| && batchSize >= 1
  {
    if n == 0 then []
    else Pauses(outcomes, batchSize, n - 1) + (if !outcomes[n - 1].Raised? && n % batchSize == 0 then [n] else [])
  }

  /**
   * How many completions the loop handles: none when the flag is already set,
   * otherwise all up to the first one before which cancel was pressed.
   */
  function CancelPoint(initiallyCancelled: bool, cancelRequests: seq<bool>): (h: nat)
    ensures h <= |cancelRequests|
    ensures initiallyCancelled ==> h == 0
    ensures forall i :: 0 <= i < h ==> !cancelRequests[i]
    ensures h < |cancelRequests| ==> initiallyCancelled || cancelRequests[h]
    decreases |cancelRequests|
  {
    if initiallyCancelled || cancelRequests == [] || cancelRequests[0] then 0
    else 1 + CancelPoint(false, cancelRequests[1..])
  }

  /** The percentage `_update_progress` shows, rounded down. */
  function Percentage(progress: nat, total: nat): nat
    requires total > 0
  {
    progress * 100 / total
  }

  /**
   * `_update_current_file`: the reduction shown for one file, 0 for an empty
   * original and never negative.
   */
  function DisplayRatio(original: nat, compressed: nat): (ratio: real)
    ensures ratio >= 0.0
    ensures original == 0 || compressed >= original ==> ratio == 0.0
    ensures original > 0 && compressed < original ==> ratio * original as real == 100.0 * (original - compressed) as real
  {
    var raw := if original > 0 then (original as real - compressed as real) / original as real * 100.0 else 0.0;
    if raw < 0.0 then 0.0 else raw
  }

  /** The figures of the final summary. */
  datatype Summary = Summary(processed: nat, success: int, failedOrSkipped: nat, reduction: int)

  /** `_finalize_compression`: every file not counted as skipped is reported as a success. */
  function FinalizeSummary(fileCount: nat, stats: Stats): Summary
  {
    Summary(fileCount, fileCount - stats.skipped, stats.skipped, stats.original - stats.compressed)
  }

  /**
   * The summary with every completion tallied, the ones after a cancel
   * included: leaving the executor's `with` block waits for every submitted
   * file, so each one's outcome is known once the summary is shown.
   */
  function CorrectedSummary(outcomes: seq<FileOutcome>): Summary
  {
    FinalizeSummary(|outcomes|, Tally(outcomes, |outcomes|))
  }

  // ----- the interface object -----

  class CompressionOps {
    var directory: string
    var pdfFiles: seq<string>
    var batchSize: int
    var pauseDuration: real
    var cancelFlag: bool
    var progressValue: nat
    var progressMaximum: nat

    /** The batch size and pause have been clamped (as `start_compression` does before any run). */
    predicate Valid()
      reads this
    {
      1 <= batchSize <= 50 && pauseDuration >= 0.0
    }

    /** `setup_variables`: no directory, no files, not cancelled; batch size and pause are set at start. */
    constructor()
      ensures Valid()
      ensures directory == "" && pdfFiles == [] && !cancelFlag && progressValue == 0 && progressMaximum == 0
    {
      directory := "";
      pdfFiles := [];
      batchSize := 1;
      pauseDuration := 0.0;
      cancelFlag := false;
      progressValue := 0;
      progressMaximum := 0;
    }

    /**
     * `select_directory`: the chosen directory is stored whatever it is (the
     * empty string when the dialog is cancelled); a non-empty choice replaces
     * the file list by what `find_pdfs` finds in `walk`, its `os.walk` listing.
     */
    method SelectDirectory(chosen: string, walk: seq<Compression.WalkStep>)
      modifies this
      ensures directory == chosen
      ensures chosen != "" ==> pdfFiles == Compression.WalkPdfs(walk, |walk|)
      ensures chosen == "" ==> pdfFiles == old(pdfFiles)
      ensures batchSize == old(batchSize) && pauseDuration == old(pauseDuration) && cancelFlag == old(cancelFlag)
      ensures progressValue == old(progressValue) && progressMaximum == old(progressMaximum)
    {
      directory := chosen;
      if directory != "" {
        pdfFiles := Compression.FindPdfs(walk);
      }
    }

    /** `select_files`: a non-empty selection replaces the file list. */
    method SelectFiles(files: seq<string>)
      modifies this
      ensures pdfFiles == (if files != [] then files else old(pdfFiles))
      ensures directory == old(directory)
      ensures batchSize == old(batchSize) && pauseDuration == old(pauseDuration) && cancelFlag == old(cancelFlag)
      ensures progressValue == old(progressValue) && progressMaximum == old(progressMaximum)
    {
      if files != [] {
        pdfFiles := files;
      }
    }

    /**
     * `start_compression`: `batchInput`/`pauseInput` are the dialog values,
     * None when reading one raises TclError (the batch size is already stored
     * when only the pause is unreadable). With files selected, the flag and
     * the progress bar are reset and the worker thread is started.
     */
    method StartCompression(batchInput: Option<int>, pauseInput: Option<real>) returns (r: StartResult)
      modifies this
      ensures batchInput.Some? ==> batchSize == ClampBatchSize(batchInput.value)
      ensures batchInput.None? ==> batchSize == old(batchSize)
      ensures batchInput.Some? && pauseInput.Some? ==> pauseDuration == ClampPause(pauseInput.value)
      ensures batchInput.None? || pauseInput.None? ==> pauseDuration == old(pauseDuration)
      ensures r == InvalidInput <==> batchInput.None? || pauseInput.None?
      ensures r == NoFiles <==> batchInput.Some? && pauseInput.Some? && pdfFiles == []
      ensures r == Started ==> !cancelFlag && progressValue == 0 && progressMaximum == |pdfFiles|
      ensures r != Started ==> cancelFlag == old(cancelFlag) && progressValue == old(progressValue)
                               && progressMaximum == old(progressMaximum)
      ensures pdfFiles == old(pdfFiles) && directory == old(directory)
      ensures old(Valid()) ==> Valid()
      ensures r == Started ==> Valid()
    {
      if batchInput.None? {
        return InvalidInput;
      }
      batchSize := ClampBatchSize(batchInput.value);
      if pauseInput.None? {
        return InvalidInput;
      }
      pauseDuration := ClampPause(pauseInput.value);
      if pdfFiles == [] {
        return NoFiles;
      }
      cancelFlag := false;
      progressValue := 0;
      progressMaximum := |pdfFiles|;
      r := Started;
    }

    /** `cancel_compression`: only ever raises the flag. */
    method Cancel()
      modifies this
      ensures cancelFlag
      ensures directory == old(directory)
      ensures pdfFiles == old(pdfFiles) && batchSize == old(batchSize) && pauseDuration == old(pauseDuration)
      ensures progressValue == old(progressValue) && progressMaximum == old(progressMaximum)
    {
      cancelFlag := true;
    }

    /** `_update_progress`: moves the bar to `progress`. */
    method UpdateProgress(progress: nat) returns (percentage: nat)
      requires pdfFiles != []
      modifies this
      ensures pdfFiles == old(pdfFiles) && batchSize == old(batchSize) && pauseDuration == old(pauseDuration)
      ensures cancelFlag == old(cancelFlag) && progressMaximum == old(progressMaximum)
      ensures progressValue == progress && directory == old(directory)
      ensures percentage == Percentage(progress, |pdfFiles|)
    {
      progressValue := progress;
      percentage := progress * 100 / |pdfFiles|;
    }

    /**
     * `compress_files`: `completions` lists the submitted files in the order
     * `as_completed` yields them, `outcomes` what each one's future delivers,
     * and `cancelRequests[i]` whether cancel was pressed before completion i
     * is looked at. Returns the stats, the progress updates posted, the
     * counts after which the loop slept, and how many completions it handled.
     */
    method CompressFiles(completions: seq<string>, outcomes: seq<FileOutcome>, cancelRequests: seq<bool>)
      returns (stats: Stats, updates: seq<ProgressUpdate>, pauses: seq<nat>, handled: nat)
      requires Valid()
      requires |completions| == |outcomes| == |cancelRequests| == |pdfFiles|
      modifies this
      ensures pdfFiles == old(pdfFiles) && batchSize == old(batchSize) && pauseDuration == old(pauseDuration)
      ensures progressValue == old(progressValue) && progressMaximum == old(progressMaximum)
      ensures directory == old(directory)
      ensures handled == CancelPoint(old(cancelFlag), cancelRequests)
      ensures stats == Tally(outcomes, handled)
      ensures updates == Updates(completions, outcomes, handled)
      ensures pauses == Pauses(outcomes, batchSize, handled)
      ensures cancelFlag == (old(cancelFlag) || handled < |completions|)
    {
      stats := Stats(0, 0, 0);
      updates, pauses := [], [];
      ghost var h := CancelPoint(old(cancelFlag), cancelRequests);
      var i := 0;
      while i < |completions|
        invariant pdfFiles == old(pdfFiles) && batchSize == old(batchSize) && pauseDuration == old(pauseDuration)
        invariant progressValue == old(progressValue) && progressMaximum == old(progressMaximum)
        invariant directory == old(directory)
        invariant i <= h
        invariant cancelFlag == old(cancelFlag) && (i > 0 ==> !cancelFlag)
        invariant stats == Tally(outcomes, i)
        invariant updates == Updates(completions, outcomes, i)
        invariant pauses == Pauses(outcomes, batchSize, i)
      {
        if cancelRequests[i] {
          Cancel();
        }
        if cancelFlag {
          break;
        }
        var pdfFile := completions[i];
        match outcomes[i] {
          case Finished(success, original, compressed) =>
            if success {
              stats := stats.(original := stats.original + original, compressed := stats.compressed + compressed);
            } else {
              stats := stats.(skipped := stats.skipped + 1);
            }
            updates := updates + [ProgressUpdate(i + 1, pdfFile)];
            if (i + 1) % batchSize == 0 {
              pauses := pauses + [i + 1];
            }
          case Raised(_) =>
            stats := stats.(skipped := stats.skipped + 1);
        }
        i := i + 1;
      }
      handled := i;
    }
  }

  // ----- what the loop's results mean -----

  /** Every handled completion is either a success or one skip. */
  lemma {:induction false} TallyAccounts(outcomes: seq<FileOutcome>, n: nat)
    requires n <= |outcomes|
    ensures Tally(outcomes, n).skipped + Successes(outcomes, n) == n
  {
    if n > 0 {
      TallyAccounts(outcomes, n - 1);
    }
  }

  /** The totals and the skip count only grow as completions are handled. */
  lemma {:induction false} TallyGrows(outcomes: seq<FileOutcome>, n: nat, m: nat)
    requires n <= m <= |outcomes|
    ensures Tally(outcomes, n).original <= Tally(outcomes, m).original
    ensures Tally(outcomes, n).compressed <= Tally(outcomes, m).compressed
    ensures Tally(outcomes, n).skipped <= Tally(outcomes, m).skipped
    decreases m - n
  {
    if n < m {
      TallyGrows(outcomes, n, m - 1);
    }
  }

  /**
   * The loop sleeps after exactly those 1-based counts that are multiples of
   * the batch size and whose completion did not raise, in increasing order.
   */
  lemma {:induction false} PausesAtBatchMultiples(outcomes: seq<FileOutcome>, batchSize: int, n: nat)
    requires n <= |outcomes| && batchSize >= 1
    ensures forall p :: p in Pauses(outcomes, batchSize, n) <==>
      1 <= p <= n && p % batchSize == 0 && !outcomes[p - 1].Raised?
    ensures forall i, j :: 0 <= i < j < |Pauses(outcomes, batchSize, n)| ==>
      Pauses(outcomes, batchSize, n)[i] < Pauses(outcomes, batchSize, n)[j]
  {
    if n > 0 {
      PausesAtBatchMultiples(outcomes, batchSize, n - 1);
      var prev := Pauses(outcomes, batchSize, n - 1);
      var added: seq<nat> := if !outcomes[n - 1].Raised? && n % batchSize == 0 then [n] else [];
      assert Pauses(outcomes, batchSize, n) == prev + added;
      forall p ensures p in prev + added <==> 1 <= p <= n && p % batchSize == 0 && !outcomes[p - 1].Raised? {
        assert p in prev + added <==> p in prev || p in added;
      }
      forall i | 0 <= i < |prev| ensures prev[i] < n {
        assert prev[i] in prev;
      }
    }
  }

  /**
   * A progress update is posted, in completion order, for exactly the handled
   * completions that did not raise, numbered by their 1-based position; with
   * every count at most the number of files, the percentage never exceeds 100.
   */
  lemma {:induction false} UpdatesInOrder(completions: seq<string>, outcomes: seq<FileOutcome>, n: nat)
    requires n <= |completions| == |outcomes|
    ensures forall u :: u in Updates(completions, outcomes, n) <==>
      1 <= u.progress <= n && !outcomes[u.progress - 1].Raised? && u.file == completions[u.progress - 1]
    ensures forall i, j :: 0 <= i < j < |Updates(completions, outcomes, n)| ==>
      Updates(completions, outcomes, n)[i].progress < Updates(completions, outcomes, n)[j].progress
  {
    if n > 0 {
      UpdatesInOrder(completions, outcomes, n - 1);
    }
  }

  /** The percentage shown stays within 0..100 while the progress is at most the total, reaching 100 at the end. */
  lemma PercentageBounds(progress: nat, total: nat)
    requires 0 < total && progress <= total
    ensures 0 <= Percentage(progress, total) <= 100
    ensures progress == total ==> Percentage(progress, total) == 100
  {
    assert progress * 100 <= total * 100;
  }

  /**
   * Between two counts of completions the successes grow by at most the
   * completions added, and by all of them exactly when each one succeeded.
   */
  lemma {:induction false} SuccessesBetween(outcomes: seq<FileOutcome>, h: nat, m: nat)
    requires h <= m <= |outcomes|
    ensures Successes(outcomes, h) <= Successes(outcomes, m) <= Successes(outcomes, h) + (m - h)
    ensures Successes(outcomes, m) == Successes(outcomes, h) + (m - h) <==>
      forall i :: h <= i < m ==> Succeeded(outcomes[i])
    decreases m - h
  {
    if h < m {
      SuccessesBetween(outcomes, h, m - 1);
      if Successes(outcomes, m) == Successes(outcomes, h) + (m - h) {
        assert Succeeded(outcomes[m - 1]);
        forall i | h <= i < m ensures Succeeded(outcomes[i]) {
          if i < m - 1 {
            assert Successes(outcomes, m - 1) == Successes(outcomes, h) + (m - 1 - h);
          }
        }
      }
    }
  }

  /**
   * With every completion tallied, the summary reports as successes exactly
   * the files that were compressed, and every other file as failed or skipped.
   */
  lemma CorrectedSuccessCount(outcomes: seq<FileOutcome>, n: nat)
    requires n == |outcomes|
    ensures CorrectedSummary(outcomes).success == Successes(outcomes, n)
    ensures CorrectedSummary(outcomes).failedOrSkipped == n - Successes(outcomes, n)
  {
    TallyAccounts(outcomes, n);
    SummaryCounts(n, Tally(outcomes, n), Successes(outcomes, n));
  }

  /** A summary of stats whose skips and successes account for every file. */
  lemma SummaryCounts(n: nat, stats: Stats, successes: nat)
    requires stats.skipped + successes == n
    ensures FinalizeSummary(n, stats).success == successes
    ensures FinalizeSummary(n, stats).failedOrSkipped == n - successes
  {
  }

  /**
   * As written, the loop stops tallying at a cancel while the executor still
   * finishes every file, and the summary reports each file the loop never
   * looked at as a success: it never reports fewer successes than there
   * were, and reports exactly as many only when every file after the cancel
   * point succeeded.
   */
  lemma SuccessOvercountAfterCancel(outcomes: seq<FileOutcome>, cancelRequests: seq<bool>, initiallyCancelled: bool)
    requires |outcomes| == |cancelRequests|
    ensures var h := CancelPoint(initiallyCancelled, cancelRequests);
      FinalizeSummary(|outcomes|, Tally(outcomes, h)).success >= CorrectedSummary(outcomes).success
    ensures var h := CancelPoint(initiallyCancelled, cancelRequests);
      FinalizeSummary(|outcomes|, Tally(outcomes, h)).success == CorrectedSummary(outcomes).success <==>
      forall i :: h <= i < |outcomes| ==> Succeeded(outcomes[i])
  {
    var h := CancelPoint(initiallyCancelled, cancelRequests);
    TallyAccounts(outcomes, h);
    CorrectedSuccessCount(outcomes, |outcomes|);
    SuccessesBetween(outcomes, h, |outcomes|);
  }

  /**
   * Concretely: two files, cancel pressed before the first completion, the
   * first compressed and the second skipped as too small. The summary says
   * two successes; one file was compressed.
   */
  lemma CancelledRunReportsSuccesses()
    ensures CancelPoint(false, [true, false]) == 0
    ensures FinalizeSummary(2, Tally([Finished(true, 4096, 1024), Finished(false, 10, 0)], 0)).success == 2
    ensures CorrectedSummary([Finished(true, 4096, 1024), Finished(false, 10, 0)]).success == 1
  {
    var outcomes := [Finished(true, 4096, 1024), Finished(false, 10, 0)];
    assert [true, false][0];
    assert Tally(outcomes, 0) == Stats(0, 0, 0);
    CorrectedSuccessCount(outcomes, |outcomes|);
    assert Successes(outcomes, 1) == 1;
  }
}
