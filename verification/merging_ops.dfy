/**
 * Model of gui/merging_ops.py: the merge front-end. The decisions it takes
 * before a merge (input validation, the output path, the overwrite question),
 * the progress display, the clamped compression ratio of the success summary
 * and the deletion of the originals afterwards. Dialog answers, the
 * writability probe and the filesystem's answers are parameters.
 */
module MergingOps {
  import opened Wrappers
  import opened Strings
  import Paths
  import Merging
  import CompressionOps

  // ----- input validation -----

  /** The characters `_validate_inputs` refuses in an output name. */
  const ForbiddenChars := "<>:\"/\\|?*"

  /** The verdict of `_validate_inputs`, one value per warning it can show. */
  datatype InputVerdict = Accepted | NoFiles | InsufficientFiles | NotPdfName | InvalidCharacters

  predicate HasForbiddenChar(name: string) {
    exists k | 0 <= k < |name| :: name[k] in ForbiddenChars
  }

  /** `_validate_inputs`: the checks in the order the source makes them. */
  function InputCheck(files: seq<string>, name: string): (v: InputVerdict)
    ensures v == Accepted <==> |files| >= 2 && EndsWith(name, ".pdf") && !HasForbiddenChar(name)
    ensures v == NoFiles <==> files == []
    ensures v == InsufficientFiles <==> |files| == 1
    ensures v == NotPdfName <==> |files| >= 2 && !EndsWith(name, ".pdf")
    ensures v == InvalidCharacters <==> |files| >= 2 && EndsWith(name, ".pdf") && HasForbiddenChar(name)
  {
    if files == [] then NoFiles
    else if |files| < 2 then InsufficientFiles
    else if !EndsWith(name, ".pdf") then NotPdfName
    else if HasForbiddenChar(name) then InvalidCharacters
    else Accepted
  }

  /** An accepted name is a plain, relative, non-empty file name: it contains no '/'. */
  lemma AcceptedNameIsPlain(files: seq<string>, name: string)
    requires InputCheck(files, name) == Accepted
    ensures '/' !in name
    ensures name != [] && name[0] != '/'
  {
    assert name[|name| - 4] == '.';
  }

  // ----- the output path -----

  /**
   * `_get_output_path` with `folder` the chosen output folder ("" when none):
   * `writable` is what `is_directory_writable` says of the first file's
   * directory and `confirmed` the answer to "Confirm Output Folder".
   */
  function OutputPath(folder: string, files: seq<string>, name: string, writable: bool, confirmed: bool): (r: Option<string>)
    requires files != []
    ensures folder != "" ==> r == Some(Paths.Join(folder, name))
    ensures folder == "" ==> (r.Some? <==> writable && confirmed)
  {
    if folder == "" then
      var defaultFolder := Paths.Dirname(files[0]);
      if !writable || !confirmed then None else Some(Paths.Join(defaultFolder, name))
    else Some(Paths.Join(folder, name))
  }

  /** The folder the merged file goes to: the chosen one, or else the first file's directory. */
  function TargetFolder(folder: string, files: seq<string>): string
    requires files != []
  {
    if folder != "" then folder else Paths.Dirname(files[0])
  }

  /**
   * For an accepted name, the path `_get_output_path` returns is never empty
   * (so `start_merge` goes on), names exactly the output file, and lies in the
   * target folder.
   */
  lemma OutputPathNamesFile(folder: string, files: seq<string>, name: string, writable: bool, confirmed: bool)
    requires InputCheck(files, name) == Accepted
    requires OutputPath(folder, files, name, writable, confirmed).Some?
    ensures var p := OutputPath(folder, files, name, writable, confirmed).value;
      p != "" && Paths.Basename(p) == name &&
      (var t := TargetFolder(folder, files); t != "" && t[|t| - 1] != '/' ==> Paths.Dirname(p) == t)
  {
    AcceptedNameIsPlain(files, name);
    var t := TargetFolder(folder, files);
    var p := OutputPath(folder, files, name, writable, confirmed).value;
    assert p == Paths.Join(t, name);
    Paths.JoinEndsWith(t, name);
    Paths.BasenameJoin(t, name);
    if t != "" && t[|t| - 1] != '/' {
      Paths.DirnameJoin(t, name);
    }
  }

  /**
   * `_confirm_overwrite`: an empty path is refused; an existing file is
   * overwritten only when the user agrees; a new file needs no question.
   */
  function ConfirmOverwrite(path: string, present: bool, agreed: bool): (ok: bool)
    ensures ok <==> path != "" && (present ==> agreed)
  {
    if path == "" then false
    else if present then agreed
    else true
  }

  // ----- progress and summary -----

  /** The displayed file name: 30 characters or more become the first 27 and "...". */
  function Truncate30(name: string): (r: string)
    ensures |r| <= 30
    ensures |name| < 30 ==> r == name
    ensures |name| >= 30 ==> |r| == 30 && r[..27] == name[..27] && EndsWith(r, "...")
  {
    if |name| >= 30 then name[..27] + "..." else name
  }

  /** The status line `_update_progress` leaves: "Merging file p of n". */
  function ProgressLabel(progress: nat, total: nat): string {
    "Merging file " + NatToString(progress) + " of " + NatToString(total)
  }

  /** The index of the first blank in `s`, or its length. */
  function FirstSpace(s: string): nat {
    if s == [] || s[0] == ' ' then 0 else 1 + FirstSpace(s[1..])
  }

  lemma {:induction false} FirstSpaceAfterDigits(x: string, u: string)
    requires forall k :: 0 <= k < |x| ==> IsDigit(x[k])
    requires u != [] && u[0] == ' '
    ensures FirstSpace(x + u) == |x|
  {
    if x != [] {
      assert IsDigit(x[0]);
      assert (x + u)[1..] == x[1..] + u;
      FirstSpaceAfterDigits(x[1..], u);
    }
  }

  /** A run of digits ends at the first blank, so " of " splits two such joined strings the same way. */
  lemma SplitAtOf(a: string, b: string, c: string, d: string)
    requires forall k :: 0 <= k < |a| ==> IsDigit(a[k])
    requires forall k :: 0 <= k < |c| ==> IsDigit(c[k])
    requires a + (" of " + b) == c + (" of " + d)
    ensures a == c && b == d
  {
    FirstSpaceAfterDigits(a, " of " + b);
    FirstSpaceAfterDigits(c, " of " + d);
    var s := a + (" of " + b);
    assert a == s[..|a|] && c == s[..|c|];
    assert b == s[|a| + 4..] && d == s[|c| + 4..];
  }

  /** The status line names the count and the total: different pairs give different lines. */
  lemma ProgressLabelInjective(p: nat, n: nat, q: nat, m: nat)
    requires ProgressLabel(p, n) == ProgressLabel(q, m)
    ensures p == q && n == m
  {
    var a, b, c, d := NatToString(p), NatToString(n), NatToString(q), NatToString(m);
    var l := ProgressLabel(p, n);
    assert l == "Merging file " + a + " of " + b;
    assert l == "Merging file " + c + " of " + d;
    assert l[13..] == a + (" of " + b) == c + (" of " + d);
    SplitAtOf(a, b, c, d);
    NatToStringInjective(p, q);
    NatToStringInjective(n, m);
  }

  /** The savings shown after a merge with compression. */
  datatype Savings = Savings(saved: int, ratio: real)

  /**
   * `_handle_merge_success`: the saving is never negative, the ratio is 0 for
   * an empty original and otherwise the saving as a percentage of the
   * original, never negative and at most 100.
   */
  function MergeSavings(original: int, compressed: int): (s: Savings)
    ensures s.saved >= 0 && s.ratio >= 0.0
    ensures s.saved == if original >= compressed then original - compressed else 0
    ensures original <= 0 ==> s.ratio == 0.0
    ensures original > 0 ==> s.ratio * original as real == 100.0 * s.saved as real
    ensures original > 0 && compressed >= 0 ==> s.ratio <= 100.0
  {
    var saved := if original - compressed > 0 then original - compressed else 0;
    var ratio := if original > 0 then saved as real / original as real * 100.0 else 0.0;
    Savings(saved, if ratio > 0.0 then ratio else 0.0)
  }

  /**
   * The ratio shown is the one `merge_pdfs` reports in its summary, clamped
   * at 0: the summary itself goes negative when compression made the files
   * larger.
   */
  lemma DisplayedRatioClampsSummary(fileCount: nat, original: int, compressed: int)
    requires original > 0
    ensures var summary := Merging.GenerateSummary(fileCount, original, compressed, true);
      MergeSavings(original, compressed).ratio == if summary.ratio > 0.0 then summary.ratio else 0.0
  {
    var summary := Merging.GenerateSummary(fileCount, original, compressed, true);
    var s := MergeSavings(original, compressed);
    if original >= compressed {
      assert s.saved == summary.reduction;
      assert s.ratio * original as real == summary.ratio * original as real;
    } else {
      assert summary.ratio * original as real < 0.0;
    }
  }

  // ----- deletion of the originals -----

  /** What `_handle_file_deletion` ends with. */
  datatype DeletionOutcome = DeclinedByUser | MergedFileMissing | Completed

  /** The entry logged for a file `os.remove` refused. */
  function FailureEntry(file: string, error: string): string {
    Paths.Basename(file) + ": " + error
  }

  const CanceledLine := "File deletion canceled by user"
  const DoneLine := "\nAll done, ready to start new merge\n"
  const DeletedHeading := "\nSuccessfully deleted:"
  const DeletedMark := "  \U{2713} "
  const FailedHeading := "\nFailed deletions:"
  const FailedMark := "  \U{2717} "

  /** One section of the deletion log: its heading, then one marked line per entry. */
  function LogSection(heading: string, mark: string, entries: seq<string>): (r: seq<string>)
    ensures entries == [] ==> r == []
    ensures entries != [] ==> |r| == 1 + |entries| && r[0] == heading
    ensures entries != [] ==> forall i :: 0 <= i < |entries| ==> r[1 + i] == mark + entries[i]
  {
    if entries == [] then [] else [heading] + seq(|entries|, i requires 0 <= i < |entries| => mark + entries[i])
  }

  /**
   * The lines `_handle_file_deletion` logs once every file was attempted:
   * the deleted names, then the failure entries, each section only when it
   * has entries, then the closing line.
   */
  function DeletionLog(deleted: seq<string>, failed: seq<string>): (r: seq<string>)
    ensures |r| == (if deleted == [] then 0 else 1 + |deleted|) + (if failed == [] then 0 else 1 + |failed|) + 1
    ensures r[|r| - 1] == DoneLine
  {
    LogSection(DeletedHeading, DeletedMark, deleted) + LogSection(FailedHeading, FailedMark, failed) + [DoneLine]
  }

  /** Positions in a concatenation of three sequences. */
  lemma ConcatIndex<T>(a: seq<T>, b: seq<T>, c: seq<T>)
    ensures forall i :: 0 <= i < |a| ==> (a + b + c)[i] == a[i]
    ensures forall i :: 0 <= i < |b| ==> (a + b + c)[|a| + i] == b[i]
  {
  }

  /** The deletion log opens with the deleted files, each under its mark, in order. */
  lemma DeletionLogDeleted(deleted: seq<string>, failed: seq<string>)
    requires deleted != []
    ensures DeletionLog(deleted, failed)[0] == DeletedHeading
    ensures forall i :: 0 <= i < |deleted| ==> DeletionLog(deleted, failed)[1 + i] == DeletedMark + deleted[i]
  {
    ConcatIndex(LogSection(DeletedHeading, DeletedMark, deleted), LogSection(FailedHeading, FailedMark, failed), [DoneLine]);
  }

  /** The failure entries follow the deleted files, under their heading, each under its mark, in order. */
  lemma DeletionLogFailed(deleted: seq<string>, failed: seq<string>, i: nat)
    requires i < |failed|
    ensures var at := if deleted == [] then 0 else 1 + |deleted|;
      DeletionLog(deleted, failed)[at] == FailedHeading &&
      DeletionLog(deleted, failed)[at + 1 + i] == FailedMark + failed[i]
  {
    var head := LogSection(DeletedHeading, DeletedMark, deleted);
    var tail := LogSection(FailedHeading, FailedMark, failed);
    SectionAt(head, tail, [DoneLine], FailedHeading, FailedMark, failed);
  }

  /** A section placed after `head` sits at `|head|`, its entries following. */
  lemma SectionAt(head: seq<string>, tail: seq<string>, rest: seq<string>, heading: string, mark: string,
                  entries: seq<string>)
    requires |tail| == 1 + |entries| && tail[0] == heading
    requires forall i :: 0 <= i < |entries| ==> tail[1 + i] == mark + entries[i]
    ensures (head + tail + rest)[|head|] == heading
    ensures forall i :: 0 <= i < |entries| ==> (head + tail + rest)[|head| + 1 + i] == mark + entries[i]
  {
    ConcatIndex(head, tail, rest);
    forall i | 0 <= i < |entries| ensures (head + tail + rest)[|head| + 1 + i] == mark + entries[i] {
      assert (head + tail + rest)[|head| + (1 + i)] == tail[1 + i];
    }
  }

  /** How many files the loop gets through before the merged file is found missing. */
  function DeletionStop(mergedExists: seq<bool>): (h: nat)
    ensures h <= |mergedExists|
    ensures forall k :: 0 <= k < h ==> mergedExists[k]
    ensures h < |mergedExists| ==> !mergedExists[h]
  {
    if mergedExists == [] || !mergedExists[0] then 0
    else 1 + DeletionStop(mergedExists[1..])
  }

  /** The base names of the first `n` files whose removal raised nothing, in order. */
  function Deleted(files: seq<string>, errors: seq<Option<string>>, n: nat): seq<string>
    requires n <= |files| == |errors|
  {
    if n == 0 then []
    else Deleted(files, errors, n - 1) + (if errors[n - 1].None? then [Paths.Basename(files[n - 1])] else [])
  }

  /** The failure entries of the first `n` files whose removal raised, in order. */
  function Failed(files: seq<string>, errors: seq<Option<string>>, n: nat): seq<string>
    requires n <= |files| == |errors|
  {
    if n == 0 then []
    else Failed(files, errors, n - 1)
         + (if errors[n - 1].Some? then [FailureEntry(files[n - 1], errors[n - 1].value)] else [])
  }

  /**
   * The deletion loop of `_handle_file_deletion` once confirmed: each file is
   * removed in turn, its base name or its failure entry recorded, until the
   * merged file is found missing.
   */
  method DeleteFiles(files: seq<string>, mergedExists: seq<bool>, errors: seq<Option<string>>)
    returns (outcome: DeletionOutcome, deleted: seq<string>, failed: seq<string>)
    requires |mergedExists| == |errors| == |files|
    ensures outcome == Completed <==> DeletionStop(mergedExists) == |files|
    ensures outcome != Completed ==> outcome == MergedFileMissing
    ensures deleted == Deleted(files, errors, DeletionStop(mergedExists))
    ensures failed == Failed(files, errors, DeletionStop(mergedExists))
  {
    deleted, failed := [], [];
    var stop := DeletionStop(mergedExists);
    var i := 0;
    while i < |files|
      invariant 0 <= i <= stop
      invariant deleted == Deleted(files, errors, i)
      invariant failed == Failed(files, errors, i)
    {
      if !mergedExists[i] {
        assert i == stop;
        return MergedFileMissing, deleted, failed;
      }
      match errors[i] {
        case None =>
          deleted := deleted + [Paths.Basename(files[i])];
        case Some(e) =>
          failed := failed + [FailureEntry(files[i], e)];
      }
      i := i + 1;
    }
    outcome := Completed;
  }

  /**
   * Every file the loop handled lands in exactly one of the two lists: the
   * lists together are as long as the files handled, every deleted name is
   * the base name of a file removed, and every failure names a file whose
   * removal raised, with its error.
   */
  lemma {:induction false} DeletionPartition(files: seq<string>, errors: seq<Option<string>>, n: nat)
    requires n <= |files| == |errors|
    ensures |Deleted(files, errors, n)| + |Failed(files, errors, n)| == n
    ensures forall d :: d in Deleted(files, errors, n) ==>
      exists i :: 0 <= i < n && errors[i].None? && d == Paths.Basename(files[i])
    ensures forall f :: f in Failed(files, errors, n) ==>
      exists i :: 0 <= i < n && errors[i].Some? && f == FailureEntry(files[i], errors[i].value)
  {
    if n > 0 {
      DeletionPartition(files, errors, n - 1);
    }
  }

  /** With no removal failing, nothing is reported as failed and every handled file as deleted. */
  lemma {:induction false} DeletionAllRemoved(files: seq<string>, errors: seq<Option<string>>, n: nat)
    requires n <= |files| == |errors|
    requires forall i :: 0 <= i < n ==> errors[i].None?
    ensures Failed(files, errors, n) == []
    ensures |Deleted(files, errors, n)| == n
  {
    if n > 0 {
      DeletionAllRemoved(files, errors, n - 1);
    }
  }

  /** `_format_deletion_summary`: one section per non-empty list, joined by a newline. */
  function FormatDeletionSummary(deleted: seq<string>, failed: seq<string>): (r: string)
    ensures r == "" <==> deleted == [] && failed == []
    ensures deleted != [] ==> StartsWith(r, "Successfully deleted: - ")
    ensures deleted == [] && failed != [] ==> StartsWith(r, "\nFailed to delete: - ")
  {
    var head := "Successfully deleted: - " + Join(deleted, "\n- ");
    var tail := "\nFailed to delete: - " + Join(failed, "\n- ");
    var sections := (if deleted != [] then [head] else []) + (if failed != [] then [tail] else []);
    assert |sections| == 2 ==> Join(sections, "\n") == head + "\n" + tail by {
      if |sections| == 2 {
        assert sections[1..] == [tail];
      }
    }
    assert head[..24] == "Successfully deleted: - ";
    assert tail[..21] == "\nFailed to delete: - ";
    Join(sections, "\n")
  }

  // ----- the interface object -----

  class MergingOps {
    var mergeFiles: seq<string>
    var outputFolder: string
    var outputName: string
    var mergedFilePath: Option<string>
    var progressValue: nat

    /** `setup_variables`: no files, no chosen folder, no merged file yet. */
    constructor()
      ensures mergeFiles == [] && outputFolder == "" && mergedFilePath == None && progressValue == 0
    {
      mergeFiles := [];
      outputFolder := "";
      outputName := "";
      mergedFilePath := None;
      progressValue := 0;
    }

    /** `select_merge_files`: a non-empty selection replaces the list; a cancelled dialog keeps it. */
    method SelectMergeFiles(files: seq<string>)
      modifies this
      ensures mergeFiles == (if files != [] then files else old(mergeFiles))
      ensures outputFolder == old(outputFolder) && outputName == old(outputName)
      ensures mergedFilePath == old(mergedFilePath) && progressValue == old(progressValue)
    {
      if files != [] {
        mergeFiles := files;
      }
    }

    /** `select_output_folder`: the dialog's folder, unless it was cancelled (""). */
    method SelectOutputFolder(folder: string)
      modifies this
      ensures outputFolder == (if folder != "" then folder else old(outputFolder))
      ensures mergeFiles == old(mergeFiles) && outputName == old(outputName)
      ensures mergedFilePath == old(mergedFilePath) && progressValue == old(progressValue)
    {
      if folder != "" {
        outputFolder := folder;
      }
    }

    /** `_validate_inputs`: the name is stored once there are enough files. */
    method ValidateInputs(name: string) returns (ok: bool)
      modifies this
      ensures ok <==> InputCheck(mergeFiles, name) == Accepted
      ensures outputName == (if |mergeFiles| >= 2 then name else old(outputName))
      ensures mergeFiles == old(mergeFiles) && outputFolder == old(outputFolder)
      ensures mergedFilePath == old(mergedFilePath) && progressValue == old(progressValue)
    {
      if mergeFiles == [] {
        return false;
      }
      if |mergeFiles| < 2 {
        return false;
      }
      outputName := name;
      if !EndsWith(name, ".pdf") {
        return false;
      }
      ok := !HasForbiddenChar(name);
    }

    /**
     * `_get_output_path`: when the default folder is not writable the folder
     * dialog is opened (`dialogFolder`, "" when cancelled) and no path is
     * returned.
     */
    method GetOutputPath(name: string, writable: bool, confirmed: bool, dialogFolder: string)
      returns (r: Option<string>)
      requires mergeFiles != []
      modifies this
      ensures mergeFiles == old(mergeFiles) && outputName == old(outputName)
      ensures r == OutputPath(old(outputFolder), mergeFiles, name, writable, confirmed)
      ensures outputFolder == (if old(outputFolder) == "" && !writable && dialogFolder != "" then dialogFolder
                               else old(outputFolder))
      ensures mergedFilePath == old(mergedFilePath) && progressValue == old(progressValue)
    {
      if outputFolder == "" {
        var defaultFolder := Paths.Dirname(mergeFiles[0]);
        if !writable {
          SelectOutputFolder(dialogFolder);
          return None;
        }
        if !confirmed {
          return None;
        }
        return Some(Paths.Join(defaultFolder, name));
      }
      r := Some(Paths.Join(outputFolder, name));
    }

    /**
     * `start_merge`: validate, find the output path, ask before overwriting
     * (`present` says whether that path exists, `overwrite` is the answer),
     * then `_prepare_for_merge`. Returns the file the merge thread is started
     * on, None when it is not started.
     */
    method StartMerge(name: string, writable: bool, confirmed: bool, dialogFolder: string,
                      present: bool, overwrite: bool) returns (launched: Option<string>)
      modifies this
      ensures launched.Some? <==>
        InputCheck(old(mergeFiles), name) == Accepted
        && OutputPath(old(outputFolder), old(mergeFiles), name, writable, confirmed).Some?
        && ConfirmOverwrite(OutputPath(old(outputFolder), old(mergeFiles), name, writable, confirmed).value,
                            present, overwrite)
      ensures launched.Some? ==>
        launched == OutputPath(old(outputFolder), old(mergeFiles), name, writable, confirmed)
        && mergedFilePath == launched && progressValue == 0 && outputName == name
        && outputFolder == old(outputFolder)
      ensures launched.None? ==> mergedFilePath == old(mergedFilePath) && progressValue == old(progressValue)
      ensures mergeFiles == old(mergeFiles)
      ensures outputName == (if |old(mergeFiles)| >= 2 then name else old(outputName))
      ensures outputFolder ==
        (if InputCheck(old(mergeFiles), name) == Accepted && old(outputFolder) == "" && !writable && dialogFolder != ""
         then dialogFolder else old(outputFolder))
    {
      var ok := ValidateInputs(name);
      if !ok {
        return None;
      }
      var output := GetOutputPath(name, writable, confirmed, dialogFolder);
      if output.None? || output.value == "" {
        return None;
      }
      if !ConfirmOverwrite(output.value, present, overwrite) {
        return None;
      }
      mergedFilePath := output;
      progressValue := 0;
      launched := output;
    }

    /**
     * `_update_progress`: the bar moves to `progress`. The status label is
     * first set to "Processing: " and the truncated base name, then at once
     * overwritten with the file count, which is what it is left showing.
     */
    method UpdateProgress(currentFile: string, progress: nat) returns (shown: string, percentage: nat)
      requires mergeFiles != []
      modifies this
      ensures mergeFiles == old(mergeFiles) && outputFolder == old(outputFolder)
      ensures progressValue == progress
      ensures shown == ProgressLabel(progress, |mergeFiles|)
      ensures percentage == CompressionOps.Percentage(progress, |mergeFiles|)
      ensures outputName == old(outputName) && mergedFilePath == old(mergedFilePath)
    {
      shown := "Processing: " + Truncate30(Paths.Basename(currentFile));
      progressValue := progress;
      percentage := progress * 100 / |mergeFiles|;
      shown := ProgressLabel(progress, |mergeFiles|);
    }

    /**
     * `_handle_file_deletion`: `confirmed` answers "Confirm Deletion";
     * `mergedExists[i]` whether the merged file still exists when file i is
     * reached, `errors[i]` what `os.remove` raised for it. Deletion stops at
     * the first check that finds the merged file gone, with an error dialog
     * and nothing logged. Returns the lines appended to the log.
     */
    method HandleFileDeletion(confirmed: bool, mergedExists: seq<bool>, errors: seq<Option<string>>)
      returns (outcome: DeletionOutcome, deleted: seq<string>, failed: seq<string>, log: seq<string>)
      requires |mergedExists| == |errors| == |mergeFiles|
      ensures outcome == DeclinedByUser <==> !confirmed
      ensures outcome == Completed <==> confirmed && DeletionStop(mergedExists) == |mergeFiles|
      ensures outcome == DeclinedByUser ==> deleted == [] && failed == []
      ensures outcome != DeclinedByUser ==>
        deleted == Deleted(mergeFiles, errors, DeletionStop(mergedExists))
        && failed == Failed(mergeFiles, errors, DeletionStop(mergedExists))
      ensures log == match outcome
        case DeclinedByUser => [CanceledLine, DoneLine]
        case MergedFileMissing => []
        case Completed => DeletionLog(deleted, failed)
    {
      if !confirmed {
        return DeclinedByUser, [], [], [CanceledLine, DoneLine];
      }
      outcome, deleted, failed := DeleteFiles(mergeFiles, mergedExists, errors);
      log := [];
      if outcome == Completed {
        log := DeletionLog(deleted, failed);
      }
    }
  }
}
