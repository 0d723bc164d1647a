/**
 * Model of logic/merging.py: `merge_pdfs` walks the input files in order,
 * reports each one to the progress callback, optionally compresses it to a
 * temporary file (falling back to the original when compression fails),
 * appends it to the merger, writes the result and, whatever happened,
 * removes every temporary file it recorded. `_generate_summary` turns the
 * totals into the summary figures.
 *
 * The PDF merger and `compress_pdf` are opaque: one `FileStep` per input
 * says what they do with that file.
 */
module Merging {
  import opened Wrappers
  import opened Strings

  /** What the collaborators do with one input file. */
  datatype FileStep = FileStep(
    compression: Result<nat>,   // the result of compress_pdf for this file (consulted only when compressing)
    originalSize: nat,          // os.path.getsize(file)
    append: Option<string>)     // None: merger.append succeeds; Some(e): it raises with text e

  /** The figures `_generate_summary` formats (sizes in bytes; the MB rendering is left out). */
  datatype MergeSummary =
    | CompressionSummary(fileCount: nat, original: int, compressed: int, reduction: int, ratio: real)
    | SizeSummary(fileCount: nat, original: int)

  /** `(True, summary, None)` or `(False, None, str(e))`. */
  datatype MergeOutcome = Merged(summary: MergeSummary) | MergeFailed(error: string)

  /** Everything a call of `merge_pdfs` does that can be observed. */
  datatype MergeRun = MergeRun(
    callbacks: seq<(string, nat)>,   // the update_callback calls, in order
    appended: seq<string>,           // the paths the merger accepted, in order
    tempFiles: seq<string>,          // the temporary files recorded for cleanup
    removalAttempts: seq<string>,    // the os.remove calls of the finally block
    removalErrors: seq<(string, string)>,  // the removals that raised, with their error text
    written: Option<string>,         // the merged output, once merger.write succeeded
    outcome: MergeOutcome)

  const TempSuffix := "_temp_compressed.pdf"

  /** The temporary output of compressing `file`: every ".pdf" in the path replaced. */
  function TempName(file: string): string {
    ReplaceAll(file, ".pdf", TempSuffix)
  }

  /** The path appended for one file: its compressed copy when compression succeeded, else the file itself. */
  function Chosen(file: string, step: FileStep, compress: bool): string {
    if compress && step.compression.Ok? then TempName(file) else file
  }

  /** The index of the first file whose append raises, or the number of files when none does. */
  function FirstAppendFailure(steps: seq<FileStep>): (k: nat)
    ensures k <= |steps|
    ensures forall i :: 0 <= i < k ==> steps[i].append.None?
    ensures k < |steps| ==> steps[k].append.Some?
  {
    if steps == [] then 0
    else if steps[0].append.Some? then 0
    else 1 + FirstAppendFailure(steps[1..])
  }

  function Callbacks(files: seq<string>, hasCallback: bool, m: nat): seq<(string, nat)>
    requires m <= |files|
  {
    if hasCallback then seq(m, i requires 0 <= i < m => (files[i], i + 1)) else []
  }

  function Appended(files: seq<string>, steps: seq<FileStep>, compress: bool, m: nat): seq<string>
    requires m <= |files| == |steps|
  {
    seq(m, i requires 0 <= i < m => Chosen(files[i], steps[i], compress))
  }

  /** The temporary files recorded while handling the first `m` files. */
  function Temps(files: seq<string>, steps: seq<FileStep>, compress: bool, m: nat): seq<string>
    requires m <= |files| == |steps|
  {
    if m == 0 then []
    else Temps(files, steps, compress, m - 1)
         + (if compress && steps[m - 1].compression.Ok? then [TempName(files[m - 1])] else [])
  }

  /** `total_original` after the first `m` files: only successfully compressed files add to it. */
  function OriginalTotal(steps: seq<FileStep>, compress: bool, m: nat): nat
    requires m <= |steps|
  {
    if m == 0 then 0
    else OriginalTotal(steps, compress, m - 1)
         + (if compress && steps[m - 1].compression.Ok? then steps[m - 1].originalSize else 0)
  }

  /** `total_compressed` after the first `m` files. */
  function CompressedTotal(steps: seq<FileStep>, compress: bool, m: nat): nat
    requires m <= |steps|
  {
    if m == 0 then 0
    else CompressedTotal(steps, compress, m - 1)
         + (if compress && steps[m - 1].compression.Ok? then steps[m - 1].compression.value else 0)
  }

  /** What the loop of `merge_pdfs` leaves behind when it stops. */
  datatype LoopState = LoopState(
    callbacks: seq<(string, nat)>,
    appended: seq<string>,
    temps: seq<string>,
    totalOriginal: nat,
    totalCompressed: nat,
    failure: Option<string>)

  /**
   * The loop of `merge_pdfs`: the files are handled in order until an append
   * raises. A file whose compression succeeded has its temporary output
   * recorded (before the append, so it is cleaned up even when the append
   * raises) and appended in its place, and adds to both totals.
   */
  method AppendFiles(files: seq<string>, compress: bool, hasCallback: bool, steps: seq<FileStep>)
    returns (st: LoopState)
    requires |steps| == |files|
    ensures var k := FirstAppendFailure(steps);
      var reached := if k < |files| then k + 1 else k;
      && st.callbacks == Callbacks(files, hasCallback, reached)
      && st.appended == Appended(files, steps, compress, k)
      && st.temps == Temps(files, steps, compress, reached)
      && st.totalOriginal == OriginalTotal(steps, compress, k)
      && st.totalCompressed == CompressedTotal(steps, compress, k)
      && st.failure == (if k < |files| then steps[k].append else None)
  {
    st := LoopState([], [], [], 0, 0, None);
    ghost var k := FirstAppendFailure(steps);
    var idx := 0;
    while idx < |files|
      invariant 0 <= idx <= k
      invariant st == Through(files, steps, compress, hasCallback, idx)
    {
      LoopStep(files, steps, compress, hasCallback, idx);
      st := HandleFile(st, files[idx], steps[idx], idx, compress, hasCallback);
      if st.failure.Some? {
        assert idx == k;
        return;
      }
      assert st == Through(files, steps, compress, hasCallback, idx + 1);
      idx := idx + 1;
    }
  }

  /** The loop's records after the first `m` files, none of whose appends raised. */
  function Through(files: seq<string>, steps: seq<FileStep>, compress: bool, hasCallback: bool, m: nat): LoopState
    requires m <= |files| == |steps|
  {
    LoopState(Callbacks(files, hasCallback, m), Appended(files, steps, compress, m), Temps(files, steps, compress, m),
      OriginalTotal(steps, compress, m), CompressedTotal(steps, compress, m), None)
  }

  /**
   * One pass of the loop: the callback hears of the file, a successful
   * compression's output is recorded, then the append either raises (the
   * error ends the loop) or accepts the chosen path and the totals grow.
   */
  method HandleFile(st: LoopState, file: string, step: FileStep, idx: nat, compress: bool, hasCallback: bool)
    returns (st': LoopState)
    requires st.failure.None?
    ensures st'.callbacks == st.callbacks + (if hasCallback then [(file, idx + 1)] else [])
    ensures st'.temps == st.temps + (if compress && step.compression.Ok? then [TempName(file)] else [])
    ensures st'.failure == step.append
    ensures step.append.Some? ==>
      st'.appended == st.appended && st'.totalOriginal == st.totalOriginal && st'.totalCompressed == st.totalCompressed
    ensures step.append.None? ==>
      && st'.appended == st.appended + [Chosen(file, step, compress)]
      && st'.totalOriginal == st.totalOriginal + (if compress && step.compression.Ok? then step.originalSize else 0)
      && st'.totalCompressed == st.totalCompressed + (if compress && step.compression.Ok? then step.compression.value else 0)
  {
    var callbacks, appended, temps := st.callbacks, st.appended, st.temps;
    var totalOriginal, totalCompressed := st.totalOriginal, st.totalCompressed;
    if hasCallback {
      callbacks := callbacks + [(file, idx + 1)];
    }
    // compress_pdf succeeded: its temporary output is recorded and appended instead
    var compressed := compress && step.compression.Ok?;
    var path := if compressed then TempName(file) else file;
    if compressed {
      temps := temps + [path];
    }
    if step.append.Some? {
      return LoopState(callbacks, appended, temps, totalOriginal, totalCompressed, step.append);
    }
    appended := appended + [path];
    if compressed {
      totalOriginal := totalOriginal + step.originalSize;
      totalCompressed := totalCompressed + step.compression.value;
    }
    st' := LoopState(callbacks, appended, temps, totalOriginal, totalCompressed, None);
  }

  /** Handling file `m` extends each record of the loop by that file's contribution. */
  lemma LoopStep(files: seq<string>, steps: seq<FileStep>, compress: bool, hasCallback: bool, m: nat)
    requires m < |files| == |steps|
    ensures Callbacks(files, hasCallback, m + 1)
      == Callbacks(files, hasCallback, m) + (if hasCallback then [(files[m], m + 1)] else [])
    ensures Appended(files, steps, compress, m + 1)
      == Appended(files, steps, compress, m) + [Chosen(files[m], steps[m], compress)]
  {
  }

  /**
   * The "Failed to delete" records of the cleanup: each temporary file whose
   * removal raised, with the error, in order. `remove` is what `os.remove`
   * does with a path: `None` when it succeeds, `Some(error)` when it raises.
   */
  function RemovalErrors(temps: seq<string>, remove: string -> Option<string>): (r: seq<(string, string)>)
    ensures |r| <= |temps|
    ensures forall e :: e in r ==> e.0 in temps && remove(e.0) == Some(e.1)
    ensures forall t :: t in temps && remove(t).Some? ==> (t, remove(t).value) in r
    ensures r == [] <==> forall t :: t in temps ==> remove(t).None?
  {
    if temps == [] then []
    else
      var t := temps[|temps| - 1];
      var front := temps[..|temps| - 1];
      assert temps == front + [t];
      RemovalErrors(front, remove) + (if remove(t).Some? then [(t, remove(t).value)] else [])
  }

  /**
   * The `finally` block of `merge_pdfs`: the removal of every recorded
   * temporary file is attempted in order; one that raises is logged and the
   * loop goes on.
   */
  method RemoveTemps(temps: seq<string>, remove: string -> Option<string>)
    returns (attempts: seq<string>, errors: seq<(string, string)>)
    ensures attempts == temps
    ensures errors == RemovalErrors(temps, remove)
  {
    attempts, errors := [], [];
    var t := 0;
    while t < |temps|
      invariant 0 <= t <= |temps|
      invariant attempts == temps[..t]
      invariant errors == RemovalErrors(temps[..t], remove)
    {
      var result := remove(temps[t]);
      if result.Some? {
        errors := errors + [(temps[t], result.value)];
      }
      assert temps[..t + 1][..t] == temps[..t];
      attempts := attempts + [temps[t]];
      t := t + 1;
    }
    assert temps[..t] == temps;
  }

  /**
   * `merge_pdfs`. `write` is what `merger.write(output_path)` does. The merge
   * succeeds exactly when every append and the write succeed; the summary is
   * built from the totals of the loop; the removal of every temporary file
   * recorded is attempted, whether the merge succeeded or not, and a removal
   * that raises is logged without stopping the others.
   */
  method MergePdfs(files: seq<string>, outputPath: string, compress: bool, hasCallback: bool,
                   steps: seq<FileStep>, write: Option<string>, remove: string -> Option<string>)
    returns (run: MergeRun)
    requires |steps| == |files|
    ensures var k := FirstAppendFailure(steps);
      var reached := if k < |files| then k + 1 else k;
      && run.callbacks == Callbacks(files, hasCallback, reached)
      && run.appended == Appended(files, steps, compress, k)
      && run.tempFiles == Temps(files, steps, compress, reached)
      && run.outcome == (if k < |files| then MergeFailed(steps[k].append.value)
                         else if write.Some? then MergeFailed(write.value)
                         else Merged(GenerateSummary(|files|, OriginalTotal(steps, compress, k),
                                                     CompressedTotal(steps, compress, k), compress)))
    ensures run.removalAttempts == run.tempFiles
    ensures run.removalErrors == RemovalErrors(run.tempFiles, remove)
    ensures run.outcome.Merged? <==> (forall i :: 0 <= i < |steps| ==> steps[i].append.None?) && write.None?
    ensures run.written.Some? <==> run.outcome.Merged?
    ensures run.written.Some? ==> run.written.value == outputPath
  {
    var st := AppendFiles(files, compress, hasCallback, steps);
    var outcome: MergeOutcome;
    var written: Option<string> := None;
    if st.failure.Some? {
      outcome := MergeFailed(st.failure.value);
    } else if write.Some? {
      outcome := MergeFailed(write.value);
    } else {
      written := Some(outputPath);
      outcome := Merged(GenerateSummary(|files|, st.totalOriginal, st.totalCompressed, compress));
    }
    var removals, errors := RemoveTemps(st.temps, remove);
    run := MergeRun(st.callbacks, st.appended, st.temps, removals, errors, written, outcome);
  }

  /**
   * Without compression every input is appended as it is, nothing is recorded
   * for cleanup and both totals stay 0.
   */
  lemma {:induction false} NoCompressionKeepsOriginals(files: seq<string>, steps: seq<FileStep>, m: nat)
    requires m <= |files| == |steps|
    ensures Appended(files, steps, false, m) == files[..m]
    ensures Temps(files, steps, false, m) == []
    ensures OriginalTotal(steps, false, m) == 0 && CompressedTotal(steps, false, m) == 0
  {
    if m > 0 {
      NoCompressionKeepsOriginals(files, steps, m - 1);
    }
  }

  /**
   * With compression, a file whose compression failed is appended as it is
   * and adds nothing to either total; one whose compression succeeded is
   * appended as its temporary copy, which is also recorded for cleanup.
   */
  lemma CompressionFallback(files: seq<string>, steps: seq<FileStep>, m: nat)
    requires 0 < m <= |files| == |steps|
    ensures steps[m - 1].compression.Err? ==>
      && Appended(files, steps, true, m)[m - 1] == files[m - 1]
      && OriginalTotal(steps, true, m) == OriginalTotal(steps, true, m - 1)
      && CompressedTotal(steps, true, m) == CompressedTotal(steps, true, m - 1)
      && Temps(files, steps, true, m) == Temps(files, steps, true, m - 1)
    ensures steps[m - 1].compression.Ok? ==>
      && Appended(files, steps, true, m)[m - 1] == TempName(files[m - 1])
      && OriginalTotal(steps, true, m) == OriginalTotal(steps, true, m - 1) + steps[m - 1].originalSize
      && CompressedTotal(steps, true, m) == CompressedTotal(steps, true, m - 1) + steps[m - 1].compression.value
      && Temps(files, steps, true, m) == Temps(files, steps, true, m - 1) + [TempName(files[m - 1])]
  {
  }

  /** Only files compressed successfully are recorded for cleanup: one temporary per such file. */
  lemma {:induction false} TempsAreCompressedFiles(files: seq<string>, steps: seq<FileStep>, compress: bool, m: nat)
    requires m <= |files| == |steps|
    ensures forall t :: t in Temps(files, steps, compress, m) <==>
      exists i :: 0 <= i < m && compress && steps[i].compression.Ok? && t == TempName(files[i])
  {
    if m > 0 {
      TempsAreCompressedFiles(files, steps, compress, m - 1);
    }
  }

  /** A path ending in ".pdf", with no other ".pdf" in it, gets exactly that suffix replaced. */
  lemma TempNameOfPdf(base: string)
    requires forall i :: 0 <= i < |base| ==> !OccursAt(base + ".pdf", ".pdf", i)
    ensures TempName(base + ".pdf") == base + TempSuffix
  {
    ReplaceAllSuffix(base, ".pdf", TempSuffix);
  }

  /**
   * `_generate_summary`: with compression, the reduction is original minus
   * compressed and the ratio is that reduction as a percentage of the
   * original (0 for an original of 0); without, only the count and total.
   */
  function GenerateSummary(fileCount: nat, original: int, compressed: int, usedCompression: bool): (s: MergeSummary)
    ensures s.CompressionSummary? <==> usedCompression
    ensures s.fileCount == fileCount && s.original == original
    ensures s.CompressionSummary? ==> s.compressed == compressed && s.reduction == original - compressed
    ensures s.CompressionSummary? && original > 0 ==> s.ratio * original as real == 100.0 * s.reduction as real
    ensures s.CompressionSummary? && original <= 0 ==> s.ratio == 0.0
  {
    if usedCompression then
      var reduction := original - compressed;
      var ratio := if original > 0 then reduction as real / original as real * 100.0 else 0.0;
      CompressionSummary(fileCount, original, compressed, reduction, ratio)
    else SizeSummary(fileCount, original)
  }

  /**
   * The summary ratio is not clamped: when compression made the files larger
   * it is negative.
   */
  lemma SummaryRatioCanBeNegative(fileCount: nat, original: int, compressed: int)
    requires 0 < original < compressed
    ensures GenerateSummary(fileCount, original, compressed, true).ratio < 0.0
  {
    var s := GenerateSummary(fileCount, original, compressed, true);
    assert s.ratio * original as real < 0.0;
  }
}
