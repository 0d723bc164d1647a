/**
 * Model of gui/merging_ops_cv.py, the other merge front-end. It checks less
 * before a merge than gui/merging_ops.py (no two-file minimum, no forbidden
 * characters, no writability probe), shortens displayed names by a different
 * rule, and deletes the originals inside the merge thread, reporting full
 * paths.
 */
module MergingOpsCv {
  import opened Wrappers
  import opened Strings
  import Paths
  import MergingOps
  import CompressionOps

  // ----- starting a merge -----

  /**
   * The decision ladder of `start_merge`: `useDefault` answers "No Output
   * Folder", `present` says whether the output file exists and `overwrite`
   * answers "Overwrite?". The result is the file the merge thread is started
   * on, None when `start_merge` returns early.
   */
  function StartPlan(files: seq<string>, folder: string, name: string,
                     useDefault: bool, present: bool, overwrite: bool): (r: Option<string>)
    ensures r.Some? <==>
      files != [] && EndsWith(name, ".pdf") && (folder != "" || useDefault) && (present ==> overwrite)
    ensures r.Some? ==> r.value == Paths.Join(if folder != "" then folder else Paths.Dirname(files[0]), name)
  {
    if files == [] then None
    else if !EndsWith(name, ".pdf") then None
    else
      var outputFolder := if folder == "" then Paths.Dirname(files[0]) else folder;
      if folder == "" && !useDefault then None
      else
        var outputFile := Paths.Join(outputFolder, name);
        if present && !overwrite then None else Some(outputFile)
  }

  /** For a plain name, the file started on is named exactly as entered. */
  lemma StartPlanNamesFile(files: seq<string>, folder: string, name: string,
                           useDefault: bool, present: bool, overwrite: bool)
    requires '/' !in name
    requires StartPlan(files, folder, name, useDefault, present, overwrite).Some?
    ensures Paths.Basename(StartPlan(files, folder, name, useDefault, present, overwrite).value) == name
  {
    var t := if folder != "" then folder else Paths.Dirname(files[0]);
    Paths.BasenameJoin(t, name);
  }

  /**
   * Everything the other front-end accepts passes these checks too, but not
   * conversely: a single file, or a name with a forbidden character, is
   * merged here and refused there.
   */
  lemma ChecksWeakerThanMergingOps(files: seq<string>, name: string)
    ensures MergingOps.InputCheck(files, name) == MergingOps.Accepted ==> files != [] && EndsWith(name, ".pdf")
    ensures StartPlan(["a.pdf"], "out", "m.pdf", true, false, true) == Some("out/m.pdf")
    ensures MergingOps.InputCheck(["a.pdf"], "m.pdf") == MergingOps.InsufficientFiles
    ensures StartPlan(["a.pdf", "b.pdf"], "out", "m?.pdf", true, false, true) == Some("out/m?.pdf")
    ensures MergingOps.InputCheck(["a.pdf", "b.pdf"], "m?.pdf") == MergingOps.InvalidCharacters
  {
    assert EndsWith("m.pdf", ".pdf") by {
      assert "m.pdf"[1..] == ".pdf";
    }
    assert EndsWith("m?.pdf", ".pdf") by {
      assert "m?.pdf"[2..] == ".pdf";
    }
    assert "m?.pdf"[1] in MergingOps.ForbiddenChars;
    assert Paths.Join("out", "m.pdf") == "out/m.pdf" by {
      assert "out"[2] != '/' && "m.pdf"[0] != '/';
    }
    assert Paths.Join("out", "m?.pdf") == "out/m?.pdf" by {
      assert "out"[2] != '/' && "m?.pdf"[0] != '/';
    }
  }

  // ----- progress -----

  /** The text before the file name on the file label. */
  const CurrentFileLabel := "Current File: "

  /** `update_merge_progress`: a name longer than 32 characters keeps its first 32 and gains "...". */
  function Truncate32(name: string): (r: string)
    ensures |r| <= 35
    ensures |name| <= 32 ==> r == name
    ensures |name| > 32 ==> |r| == 35 && r[..32] == name[..32] && EndsWith(r, "...")
  {
    if |name| > 32 then name[..32] + "..." else name
  }

  /**
   * The two front-ends shorten names differently: names of 30 to 32
   * characters are shortened by gui/merging_ops.py only, and a longer name
   * is shown with 30 characters there but 35 here.
   */
  lemma TruncationRulesDiffer(name: string)
    ensures |name| < 30 ==> MergingOps.Truncate30(name) == name == Truncate32(name)
    ensures 30 <= |name| <= 32 ==> |MergingOps.Truncate30(name)| == 30 && Truncate32(name) == name
    ensures 30 < |name| <= 32 ==> MergingOps.Truncate30(name) != name
    ensures |name| > 32 ==> |MergingOps.Truncate30(name)| == 30 && |Truncate32(name)| == 35
    ensures |name| >= 30 ==> MergingOps.Truncate30(name)[..27] == Truncate32(name)[..27]
  {
    if |name| >= 30 && |name| > 32 {
      assert Truncate32(name)[..27] == Truncate32(name)[..32][..27];
    }
  }

  // ----- deleting the originals -----

  /** The paths of the first `n` files that `os.remove` removed, in order. */
  function Deleted(files: seq<string>, errors: seq<Option<string>>, n: nat): seq<string>
    requires n <= |files| == |errors|
  {
    if n == 0 then []
    else Deleted(files, errors, n - 1) + (if errors[n - 1].None? then [files[n - 1]] else [])
  }

  /** The entry recorded for a file `os.remove` refused: its path and the error. */
  function FailureEntry(file: string, error: string): string {
    file + ": " + error
  }

  /** The failure entries of the first `n` files, in order. */
  function Failed(files: seq<string>, errors: seq<Option<string>>, n: nat): seq<string>
    requires n <= |files| == |errors|
  {
    if n == 0 then []
    else Failed(files, errors, n - 1)
         + (if errors[n - 1].Some? then [FailureEntry(files[n - 1], errors[n - 1].value)] else [])
  }

  /**
   * Each file lands in exactly one list: the lists together are as long as
   * the files, every deleted path is a file whose removal succeeded, every
   * failure names a file whose removal raised.
   */
  lemma {:induction false} DeletionPartition(files: seq<string>, errors: seq<Option<string>>, n: nat)
    requires n <= |files| == |errors|
    ensures |Deleted(files, errors, n)| + |Failed(files, errors, n)| == n
    ensures forall d :: d in Deleted(files, errors, n) ==>
      exists i :: 0 <= i < n && errors[i].None? && d == files[i]
    ensures forall f :: f in Failed(files, errors, n) ==>
      exists i :: 0 <= i < n && errors[i].Some? && f == FailureEntry(files[i], errors[i].value)
  {
    if n > 0 {
      DeletionPartition(files, errors, n - 1);
    }
  }

  /** When every removal succeeds, the deleted list is the files themselves, in order. */
  lemma {:induction false} DeletionAllRemoved(files: seq<string>, errors: seq<Option<string>>, n: nat)
    requires n <= |files| == |errors|
    requires forall i :: 0 <= i < n ==> errors[i].None?
    ensures Deleted(files, errors, n) == files[..n]
    ensures Failed(files, errors, n) == []
  {
    if n > 0 {
      DeletionAllRemoved(files, errors, n - 1);
      assert files[..n] == files[..n - 1] + [files[n - 1]];
    }
  }

  /**
   * The "Deletion Summary" text: a section per non-empty list, joined by a
   * newline; nothing is shown when both lists are empty.
   */
  function DeletionSummary(deleted: seq<string>, failed: seq<string>): (r: Option<string>)
    ensures r.None? <==> deleted == [] && failed == []
    ensures deleted != [] ==> r.Some? && StartsWith(r.value, "Deleted files:\n")
    ensures deleted == [] && failed != [] ==> r.Some? && StartsWith(r.value, "\nFailed to delete:\n")
  {
    var head := "Deleted files:\n" + Join(deleted, "\n");
    var tail := "\nFailed to delete:\n" + Join(failed, "\n");
    var sections := (if deleted != [] then [head] else []) + (if failed != [] then [tail] else []);
    assert |sections| == 2 ==> Join(sections, "\n") == head + "\n" + tail by {
      if |sections| == 2 {
        assert sections[1..] == [tail];
      }
    }
    assert head[..15] == "Deleted files:\n";
    assert tail[..19] == "\nFailed to delete:\n";
    if sections == [] then None else Some(Join(sections, "\n"))
  }

  // ----- the interface object -----

  class MergingOpsCv {
    var mergeFiles: seq<string>
    var outputFolder: string
    var mergedFilePath: Option<string>
    var progressValue: nat
    var progressMaximum: nat

    /** `setup_variables`. */
    constructor()
      ensures mergeFiles == [] && outputFolder == "" && mergedFilePath == None
      ensures progressValue == 0 && progressMaximum == 0
    {
      mergeFiles := [];
      outputFolder := "";
      mergedFilePath := None;
      progressValue := 0;
      progressMaximum := 0;
    }

    /** `select_merge_files`: a non-empty selection replaces the list. */
    method SelectMergeFiles(files: seq<string>)
      modifies this
      ensures mergeFiles == (if files != [] then files else old(mergeFiles))
      ensures outputFolder == old(outputFolder) && mergedFilePath == old(mergedFilePath)
      ensures progressValue == old(progressValue) && progressMaximum == old(progressMaximum)
    {
      if files != [] {
        mergeFiles := files;
      }
    }

    /** `select_output_folder`: the dialog's answer is stored as it is, so cancelling ("") clears the folder. */
    method SelectOutputFolder(folder: string)
      modifies this
      ensures outputFolder == folder
      ensures mergeFiles == old(mergeFiles) && mergedFilePath == old(mergedFilePath)
      ensures progressValue == old(progressValue) && progressMaximum == old(progressMaximum)
    {
      outputFolder := folder;
    }

    /** `start_merge`: on a launch the merged path is stored and the bar reset to the file count. */
    method StartMerge(name: string, useDefault: bool, present: bool, overwrite: bool)
      returns (launched: Option<string>)
      modifies this
      ensures mergeFiles == old(mergeFiles) && outputFolder == old(outputFolder)
      ensures launched == StartPlan(mergeFiles, outputFolder, name, useDefault, present, overwrite)
      ensures launched.Some? ==> mergedFilePath == launched && progressValue == 0
                                 && progressMaximum == |mergeFiles|
      ensures launched.None? ==> mergedFilePath == old(mergedFilePath) && progressValue == old(progressValue)
                                 && progressMaximum == old(progressMaximum)
    {
      if mergeFiles == [] {
        return None;
      }
      if !EndsWith(name, ".pdf") {
        return None;
      }
      var folder;
      if outputFolder == "" {
        var defaultFolder := Paths.Dirname(mergeFiles[0]);
        if !useDefault {
          return None;
        }
        folder := defaultFolder;
      } else {
        folder := outputFolder;
      }
      var outputFile := Paths.Join(folder, name);
      if present && !overwrite {
        return None;
      }
      mergedFilePath := Some(outputFile);
      progressValue := 0;
      progressMaximum := |mergeFiles|;
      launched := Some(outputFile);
    }

    /**
     * `update_merge_progress`: the bar moves to `progress`; the file label
     * shows "Current File: " and the shortened base name.
     */
    method UpdateProgress(currentFile: string, progress: nat) returns (shown: string, percentage: nat)
      requires mergeFiles != []
      modifies this
      ensures mergeFiles == old(mergeFiles) && outputFolder == old(outputFolder)
      ensures mergedFilePath == old(mergedFilePath) && progressMaximum == old(progressMaximum)
      ensures progressValue == progress
      ensures shown == CurrentFileLabel + Truncate32(Paths.Basename(currentFile))
      ensures percentage == CompressionOps.Percentage(progress, |mergeFiles|)
    {
      shown := CurrentFileLabel + Truncate32(Paths.Basename(currentFile));
      progressValue := progress;
      percentage := progress * 100 / |mergeFiles|;
    }

    /**
     * The deletion block of `merge_files_thread`: `confirmed` answers
     * "Confirm Deletion", `errors[i]` is what `os.remove` raised for file i.
     * Returns both lists and the summary shown, if any.
     */
    method DeleteOriginals(confirmed: bool, errors: seq<Option<string>>)
      returns (deleted: seq<string>, failed: seq<string>, summary: Option<string>)
      requires |errors| == |mergeFiles|
      ensures !confirmed ==> deleted == [] && failed == [] && summary == None
      ensures confirmed ==> deleted == Deleted(mergeFiles, errors, |mergeFiles|)
                            && failed == Failed(mergeFiles, errors, |mergeFiles|)
      ensures summary == DeletionSummary(deleted, failed)
    {
      if !confirmed {
        return [], [], None;
      }
      deleted, failed := [], [];
      var i := 0;
      while i < |mergeFiles|
        invariant 0 <= i <= |mergeFiles|
        invariant deleted == Deleted(mergeFiles, errors, i)
        invariant failed == Failed(mergeFiles, errors, i)
      {
        match errors[i] {
          case None =>
            deleted := deleted + [mergeFiles[i]];
          case Some(e) =>
            failed := failed + [FailureEntry(mergeFiles[i], e)];
        }
        i := i + 1;
      }
      summary := DeletionSummary(deleted, failed);
    }
  }
}
