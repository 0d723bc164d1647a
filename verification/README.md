# PDFTools core in Dafny

PDFTools is a desktop application for batch work on PDF files: compressing
them, merging them, splitting them into pages, printing the pages, running
OCR on them, and viewing the operations log. A separate script writes the
project's directory tree to a text file. This project models the logic of
each of those operations and proves what it promises, one Dafny module per
source file:

| module | file | what it holds |
|---|---|---|
| `Compression` | `logic/compression.py` | the recursive PDF search (`find_pdfs`) as a loop over an `os.walk` listing; the input checks, level settings, result and logged ratio of `compress_pdf` |
| `CompressionOps` | `gui/compression_ops.py` | the `CompressionOps` class: its fields, the input clamps, `process_single_file`, the completion loop of `compress_files` with its cancel flag, batch pauses and stats, and the final summary |
| `Merging` | `logic/merging.py` | `merge_pdfs` as a loop over the inputs with the temporary-file bookkeeping and the cleanup in `finally`; `_generate_summary` |
| `MergingOps` | `gui/merging_ops.py` | the `MergingOps` class: input validation, the output path, the overwrite question, progress display, the clamped savings, and the deletion loop |
| `MergingOpsCv` | `gui/merging_ops_cv.py` | the other merge front-end, with its weaker checks, its own truncation rule and its own deletion loop, set side by side with `MergingOps` |
| `Split` | `logic/split.py` | `split_pdf` over a file system held as a map from path to size; `_compress_with_ghostscript` and its 1% keep rule |
| `Ocr` | `logic/ocr.py` | `ocr_pdf`: the page loop building a Word document or an RTF file, the progress reports and the output name |
| `OcrOps` | `gui/ocr_ops.py` | the `OcrOps` class: the entry box, the join/split round trip of selected files, the folder and file modes of `process_files`, and the messages shown |
| `PrintManager` | `gui/printing/print_manager.py` | `_parse_page_range`, `_validate_page_range`, `_apply_page_filter` and the checks and print loop of `print_split_files` |
| `LogViewer` | `logic/log_viewer.py` | the filter loop of `refresh_logs`, and the log widget (a class whose text a disabled state protects) under `refresh_logs`, `auto_refresh` and `clear_logs` |
| `StructureGenerator` | `structure_generator.py` | `generate_tree` over a directory tree value, `save_tree_to_file` and `main` |
| `Strings`, `Paths`, `Wrappers` | | the parts of Python's `str` and `os.path` that the logic relies on, and `Option`/`Result` |

Everything outside the program's own logic is a parameter: what a dialog
answers, whether a file exists, its size, a directory listing, what the PDF,
OCR and Ghostscript tools do with a file, and whether a command raises. Where
the source runs work on a thread or posts it to the interface thread, the
model runs it in order. Sizes are natural numbers, and ratios are `real`s.

Where a comment and the code disagree, the model follows the code:

- `update_merge_progress` in `gui/merging_ops_cv.py` promises a maximum of 30
  characters, but shows a long name as 32 characters plus "...".
- The docstring of `_compress_with_ghostscript` in `logic/split.py` speaks of a
  5% saving, but the code keeps a result that saves 1%.

Some behaviour of the source is modelled as it is, and the lemmas show it:

- The merge summary ratio of `logic/merging.py` is negative when compression
  made the files larger (`Merging.SummaryRatioCanBeNegative`).
- The error and warning texts of `gui/ocr_ops.py` carry their prefix twice,
  as in "Error: Error: ...", because `process_files` adds a prefix and so does
  `update_message` (`OcrOps.Display`).
- After `clear_logs` the viewer shows "No matching entries", not an empty
  text (`LogViewer.LogText.ClearLogs`).

## Model

| member | source | states |
|---|---|---|
| Compression.FindPdfs | logic/compression.py:13-24 | returns, in walk order, the joined path of every file whose lower-cased name ends in ".pdf"; a path is returned exactly when some walked directory holds such a file under that name |
| Compression.StepPdfsMembers | logic/compression.py:18-20 | a path is among one directory's results exactly when one of the files examined so far is a PDF name that joins to that path |
| Compression.WalkPdfsMembers | logic/compression.py:17-20 | a path is among the results of the first i directories exactly when one of those directories holds a PDF name joining to it |
| Compression.PdfNameIgnoresCase | logic/compression.py:19 | a name qualifies exactly when its last four characters lower-case to ".pdf", so "REPORT.PDF" is found |
| Compression.LevelSettings | logic/compression.py:55-61 | object streams are generated exactly for "high"; streams are left uncompressed exactly for "low"; any other level keeps the defaults |
| Compression.CompressPdf | logic/compression.py:26-90 | succeeds exactly when the input exists, is non-empty and the library saves it, and then returns the saved size; a missing file, an empty file and a password-protected PDF each give their fixed message, and any other library exception gives its own text |
| Compression.LoggedRatio | logic/compression.py:70-76 | the logged ratio is 0 exactly when the output is not smaller, lies in 0..100, and otherwise is the saved bytes as a percentage of the original |
| CompressionOps.ClampBatchSize | gui/compression_ops.py:173 | the batch size always lies in 1..50: a value in range is kept, anything lower becomes 1 and anything higher 50 |
| CompressionOps.ClampPause | gui/compression_ops.py:174 | the pause is never negative: a non-negative value is kept and a negative one becomes 0 |
| CompressionOps.OutputPathOfPdf | gui/compression_ops.py:241 | keeping originals, a name whose only ".pdf" is its lower-case extension, "x.pdf", is compressed to "x_compressed.pdf", a path other than the input; deleting originals writes over the input |
| CompressionOps.KeptOriginalTargetIsInput | gui/compression_ops.py:241 | keeping originals, a name holding no lower-case ".pdf" is compressed onto its own path, because the replacement is case-sensitive |
| CompressionOps.UpperCaseExtensionTargetsInput | gui/compression_ops.py:241 | "SCAN.PDF" is a PDF name to the case-blind file search, and keeping originals still targets "SCAN.PDF" itself |
| CompressionOps.ProcessSingleFile | gui/compression_ops.py:232-253 | raises exactly when the size cannot be read; a file below the minimum is skipped with (False, size, 0); otherwise it succeeds exactly when compress_pdf does, run on the file with the output path above and overwrite set exactly when originals are deleted, returning the compressed size, and a failure reports size 0 |
| CompressionOps.CancelPoint | gui/compression_ops.py:206-208 | the loop handles no completion when the flag was already set, and otherwise every completion before the first one at which cancel had been pressed |
| CompressionOps.DisplayRatio | gui/compression_ops.py:275-281 | the reduction shown is never negative, is 0 for an empty original or a file that did not shrink, and is otherwise the saved bytes as a percentage of the original |
| CompressionOps.CompressionOps.constructor | gui/compression_ops.py:21-25 | a new front-end has no directory, no files, no cancel request and an empty progress bar |
| CompressionOps.CompressionOps.SelectDirectory | gui/compression_ops.py:145-150 | the chosen directory is stored as given; a non-empty choice replaces the file list by the PDFs find_pdfs finds there; nothing else changes |
| CompressionOps.CompressionOps.SelectFiles | gui/compression_ops.py:152-157 | a non-empty selection replaces the file list and a cancelled dialog keeps it; nothing else changes |
| CompressionOps.CompressionOps.StartCompression | gui/compression_ops.py:169-190 | stores the clamped batch size and pause; an unreadable value gives the invalid-input error (a batch size read before it stays stored); no files gives the no-files warning; otherwise the flag is cleared and the bar reset to the file count |
| CompressionOps.CompressionOps.Cancel | gui/compression_ops.py:255-259 | raises the cancel flag and changes nothing else |
| CompressionOps.CompressionOps.UpdateProgress | gui/compression_ops.py:268-273 | moves the bar to the given count and shows the integer percentage of the file count |
| CompressionOps.CompressionOps.CompressFiles | gui/compression_ops.py:192-230 | handles exactly the completions before the cancel point; the stats tally them (a success adds its sizes, anything else one skip); one progress update is posted per handled completion that did not raise; the loop sleeps after those of the batch multiples; the flag stays raised once cancelled |
| CompressionOps.TallyAccounts | gui/compression_ops.py:212-228 | every handled completion is counted exactly once, as a success or as a skip |
| CompressionOps.TallyGrows | gui/compression_ops.py:212-217 | the two size totals and the skip count never decrease as completions are handled |
| CompressionOps.PausesAtBatchMultiples | gui/compression_ops.py:222-224 | the loop sleeps after exactly those 1-based counts that are multiples of the batch size and whose result did not raise, in increasing order |
| CompressionOps.UpdatesInOrder | gui/compression_ops.py:220 | a progress update is posted, in completion order, for exactly the handled completions that did not raise, each numbered by its 1-based position |
| CompressionOps.PercentageBounds | gui/compression_ops.py:271 | the percentage lies in 0..100 while the progress is at most the total, and reaches 100 at the end |
| CompressionOps.CorrectedSuccessCount | gui/compression_ops.py:283-290 | with every completion tallied, the summary reports as successes exactly the files that were compressed, and every other file as failed or skipped |
| CompressionOps.SuccessOvercountAfterCancel | gui/compression_ops.py:286-288 | after a cancel the executor still finishes every file, but the summary as written reports each file the loop did not look at as a success: it never reports fewer successes than there were, and reports the true count exactly when every file after the cancel point succeeded |
| CompressionOps.CancelledRunReportsSuccesses | gui/compression_ops.py:283-290 | a worked example: two files, cancel pressed before the first completion, the first compressed and the second skipped as too small; the summary says two successes where one file was compressed |
| Merging.FirstAppendFailure | logic/merging.py:37-44 | the first input whose append raises, or the input count: every append before it succeeds |
| Merging.AppendFiles | logic/merging.py:25-44 | the loop handles the inputs up to and including the first failing append; the callback hears of each handled input with its 1-based index; successfully compressed inputs are recorded as temporaries and appended in place of the originals; the totals add their sizes |
| Merging.HandleFile | logic/merging.py:26-44 | one pass: the callback, then the temporary recorded when compression succeeded (before the append), then the append, which either ends the loop with its error or adds the file's sizes to the totals |
| Merging.LoopStep | logic/merging.py:25-44 | handling input m extends the callbacks, the appended paths, the temporaries and the totals by exactly that input's contribution |
| Merging.MergePdfs | logic/merging.py:7-67 | succeeds exactly when every append and the write succeed; a success writes to the output path and carries the summary of the loop's totals, a failure the error text; the removal of every recorded temporary is attempted either way, and the removals that raise are exactly the ones logged |
| Merging.RemovalErrors | logic/merging.py:61-67 | the logged removal failures are exactly the temporaries whose removal raised, each with its error, and none are logged when every removal succeeds |
| Merging.RemoveTemps | logic/merging.py:61-67 | every recorded temporary file is attempted, in order, whether or not an earlier removal raised; the failures logged are those of `RemovalErrors` |
| Merging.NoCompressionKeepsOriginals | logic/merging.py:43-44 | without compression every input is appended as it is, nothing is recorded for cleanup, and both totals stay 0 |
| Merging.CompressionFallback | logic/merging.py:35-42 | a failed compression appends the original and adds nothing to the totals; a successful one appends the temporary copy, records it, and adds both sizes |
| Merging.TempsAreCompressedFiles | logic/merging.py:32-36 | a path is recorded for cleanup exactly when it is the temporary name of an input whose compression succeeded |
| Merging.TempNameOfPdf | logic/merging.py:32 | the temporary name of "x.pdf" is "x_temp_compressed.pdf" |
| Merging.GenerateSummary | logic/merging.py:69-81 | with compression, the reduction is original minus compressed and the ratio is that reduction as a percentage of the original (0 when the original is not positive); without it, only the file count and the total |
| Merging.SummaryRatioCanBeNegative | logic/merging.py:72-73 | when compression made the files larger, the summary ratio is negative |
| MergingOps.InputCheck | gui/merging_ops.py:316-337 | an input is accepted exactly when there are at least two files and the name ends in ".pdf" without a forbidden character; each refusal names the first check that fails, in the source's order |
| MergingOps.AcceptedNameIsPlain | gui/merging_ops.py:326-335 | an accepted name is non-empty and holds no '/', so it names a file in the output folder |
| MergingOps.OutputPath | gui/merging_ops.py:339-370 | a chosen folder gives that folder joined with the name; without one, a path exists exactly when the first file's directory is writable and the user confirms it |
| MergingOps.OutputPathNamesFile | gui/merging_ops.py:339-370 | for an accepted name the returned path is non-empty, its base name is the name, and its directory is the target folder |
| MergingOps.ConfirmOverwrite | gui/merging_ops.py:372-382 | proceeds exactly when the path is non-empty and, if the file exists, the user agreed |
| MergingOps.Truncate30 | gui/merging_ops.py:393-395 | a name under 30 characters is kept unchanged; a longer one becomes its first 27 characters plus "...", exactly 30 (the "Processing:" label built from it is overwritten at once) |
| MergingOps.MergeSavings | gui/merging_ops.py:428-434 | the saving is original minus compressed but never negative; the ratio is 0 for an empty original and otherwise the saving as a percentage of the original, in 0..100 |
| MergingOps.DisplayedRatioClampsSummary | gui/merging_ops.py:432-434 | the ratio shown is the summary ratio of merge_pdfs when that is non-negative, and 0 when it is negative |
| MergingOps.DeletionStop | gui/merging_ops.py:475-478 | deletion stops at the first file before which the merged file is found missing, and gets through all files otherwise |
| MergingOps.DeleteFiles | gui/merging_ops.py:474-483 | the loop ends completed exactly when the merged file stays present throughout; the deleted list holds the base names, and the failed list the entries, of the handled files whose removal succeeded or raised |
| MergingOps.DeletionPartition | gui/merging_ops.py:474-483 | each handled file lands in exactly one list: deleted names belong to files removed, and failures name files whose removal raised, with its error |
| MergingOps.DeletionAllRemoved | gui/merging_ops.py:479-481 | when no removal raises, nothing is reported as failed and every handled file is reported as deleted |
| MergingOps.LogSection | gui/merging_ops.py:486-493 | a log section is empty without entries, and otherwise its heading followed by one marked line per entry, in order |
| MergingOps.DeletionLog | gui/merging_ops.py:484-495 | the log after a completed deletion: a section per non-empty list, then the closing line |
| MergingOps.DeletionLogDeleted | gui/merging_ops.py:486-489 | with files deleted, the log opens with "Successfully deleted:" and one check-marked line per deleted name, in order |
| MergingOps.DeletionLogFailed | gui/merging_ops.py:490-493 | the "Failed deletions:" heading follows the deleted section, then one cross-marked line per failure entry, in order |
| MergingOps.FormatDeletionSummary | gui/merging_ops.py:497-504 | a helper the view never calls: the summary is empty exactly when both lists are; the deleted section comes first, and the failed section opens the text when nothing was deleted |
| MergingOps.MergingOps.constructor | gui/merging_ops.py:25-29 | no files, no chosen folder, no merged file |
| MergingOps.MergingOps.SelectMergeFiles | gui/merging_ops.py:244-253 | a non-empty selection replaces the file list and a cancelled dialog keeps it; nothing else changes |
| MergingOps.MergingOps.SelectOutputFolder | gui/merging_ops.py:255-260 | a chosen folder is stored and a cancelled dialog keeps the old one; nothing else changes |
| MergingOps.MergingOps.ValidateInputs | gui/merging_ops.py:316-337 | returns true exactly when the input check accepts; the name is stored once there are at least two files |
| MergingOps.MergingOps.GetOutputPath | gui/merging_ops.py:339-370 | returns the output path above; when the default folder is not writable it opens the folder dialog and stores a folder chosen there |
| MergingOps.MergingOps.StartMerge | gui/merging_ops.py:262-284 | a merge is launched exactly when the inputs are accepted, an output path is found and overwriting is confirmed; it then records that path as the merged file and resets the bar; on every path the name is stored once there are two files, and the folder is the dialog's when the default folder was not writable |
| MergingOps.MergingOps.UpdateProgress | gui/merging_ops.py:391-403 | the bar moves to the given count and the percentage is the integer percentage of the file count; the status label is left showing "Merging file p of n", the "Processing:" text being overwritten at once |
| MergingOps.ProgressLabelInjective | gui/merging_ops.py:400-402 | the status line determines the count and the total: different pairs give different lines |
| MergingOps.MergingOps.HandleFileDeletion | gui/merging_ops.py:464-495 | a declined confirmation deletes nothing and logs the cancel line and the closing line; otherwise the deletion loop runs, and it completes exactly when the merged file stays present throughout, in which case the deletion log is appended, while a missing merged file logs nothing |
| MergingOpsCv.StartPlan | gui/merging_ops_cv.py:257-308 | a merge starts exactly when there are files, the name ends in ".pdf", a default folder is confirmed when none was chosen, and an existing output may be overwritten; it writes to the folder joined with the name |
| MergingOpsCv.StartPlanNamesFile | gui/merging_ops_cv.py:286-292 | for a name without '/', the file the merge starts on has exactly that name |
| MergingOpsCv.ChecksWeakerThanMergingOps | gui/merging_ops_cv.py:258-265 | whatever the other front-end accepts passes these checks, but a single file, or a name with a forbidden character, is merged here and refused there |
| MergingOpsCv.Truncate32 | gui/merging_ops_cv.py:379-382 | a name of at most 32 characters is shown unchanged; a longer one keeps its first 32 characters and gains "...", 35 in all |
| MergingOpsCv.TruncationRulesDiffer | gui/merging_ops_cv.py:379-382 | the two front-ends agree below 30 characters; names of 31 or 32 characters are shortened only by the other front-end; longer names are shown with 30 characters there and 35 here, sharing the first 27 |
| MergingOpsCv.DeletionPartition | gui/merging_ops_cv.py:347-354 | each file lands in exactly one list: deleted paths are files whose removal succeeded, and failures name files whose removal raised, with its error |
| MergingOpsCv.DeletionAllRemoved | gui/merging_ops_cv.py:349-352 | when every removal succeeds, the deleted list is the files themselves, in order, and nothing failed |
| MergingOpsCv.DeletionSummary | gui/merging_ops_cv.py:356-367 | nothing is shown exactly when both lists are empty; the deleted section comes first, and the failed section opens the text when nothing was deleted |
| MergingOpsCv.MergingOpsCv.constructor | gui/merging_ops_cv.py:20-24 | no files, no chosen folder, no merged file |
| MergingOpsCv.MergingOpsCv.SelectMergeFiles | gui/merging_ops_cv.py:243-248 | a non-empty selection replaces the file list and a cancelled dialog keeps it |
| MergingOpsCv.MergingOpsCv.SelectOutputFolder | gui/merging_ops_cv.py:251-254 | the dialog's answer is stored as it is, so cancelling clears the chosen folder |
| MergingOpsCv.MergingOpsCv.StartMerge | gui/merging_ops_cv.py:257-308 | launches exactly as StartPlan says; a launch records the merged path and resets the bar to the file count |
| MergingOpsCv.MergingOpsCv.UpdateProgress | gui/merging_ops_cv.py:376-395 | the bar moves to the given count; the file label shows "Current File: " and the shortened base name; the integer percentage of the file count |
| MergingOpsCv.MergingOpsCv.DeleteOriginals | gui/merging_ops_cv.py:339-368 | a declined confirmation deletes nothing and shows nothing; otherwise every file is removed in turn, and the summary covers both lists |
| Ocr.AddPages | logic/ocr.py:33-50 | each page adds a Word paragraph (with a page break unless it is the last page) or an escaped RTF line (followed by "\page" unless it is the last page); progress (n, total) is reported after page n; a failing page ends the loop with its exception after the pages before it |
| Ocr.PagesDone | logic/ocr.py:33-37 | the loop completes every page, or exactly the pages before the first failing one |
| Ocr.OcrPdf | logic/ocr.py:11-70 | a missing input raises FileNotFoundError and a PDF that does not open raises its own error, both before any report; a format other than docx or rtf raises ValueError; otherwise every page is transcribed and the document is saved under "OCR_<stem>.<format>" in the output directory, unless a page or the save raises, which ends the call with that exception after the reports made so far |
| Ocr.Transcribe | logic/ocr.py:30-68 | reports 0, adds the pages, saves the document and reports the total once more; a docx holds one paragraph per page, and an RTF file holds the header, the page lines and the closing brace; a failing page raises its exception, and a failing save its own, with only the reports made before |
| Ocr.PartialCallbacksPrefix | logic/ocr.py:30-50 | the reports made before an exception are a prefix of a complete run's: the start, then one per completed page, the last naming the pages done |
| Ocr.EscapeHasNoNewline | logic/ocr.py:45 | an escaped page text holds no newline, since each one becomes "\par " |
| Ocr.RtfLinesShape | logic/ocr.py:44-47 | page i's escaped text sits at line 2i, with "\page" after it unless it is the last page, and nothing else |
| Ocr.RtfLinesNoNewline | logic/ocr.py:44-47 | no page line of the RTF file holds a newline |
| Ocr.FontLineHasNoNewline | logic/ocr.py:24 | the first header line holds no newline |
| Ocr.HeaderHasNoNewline | logic/ocr.py:24-26 | no header line holds a newline |
| Ocr.RtfFileRoundTrip | logic/ocr.py:60-63 | splitting the written RTF text on newlines gives back the header, the page lines and the closing brace |
| Ocr.OcrCallbacksProgress | logic/ocr.py:30-68 | the reports start at 0, never go back, stay at most the page count and end there; the final count is reported twice |
| Ocr.OutputPathName | logic/ocr.py:52-55 | the output's base name is "OCR_" + the input's base name without its extension + "." + the format, and it lies in the output directory |
| OcrOps.Display | gui/ocr_ops.py:102-115 | every message ends in a newline; errors start with "Error: Error: ", warnings with "Warning: Warning: ", and a success names the file and the path it was saved to |
| OcrOps.SelectionRoundTrip | gui/ocr_ops.py:126 | selected paths joined with "; " (line 100), split on ';' and stripped (line 159) give back the selection, provided no path holds ';' or starts or ends with a blank |
| OcrOps.PdfNames | gui/ocr_ops.py:136 | keeps exactly the names that end in ".pdf", case-sensitively |
| OcrOps.PdfNamesInOrder | gui/ocr_ops.py:136 | the kept names come in listing order |
| OcrOps.FolderJobs | gui/ocr_ops.py:142-147 | the folder mode converts each PDF name, joined onto the folder, and shows the name |
| OcrOps.FileJob | gui/ocr_ops.py:158-167 | an entry is stripped and converted exactly when it is a file ending in ".pdf" (shown by its base name), and is skipped otherwise |
| OcrOps.FileJobs | gui/ocr_ops.py:158-167 | the file mode makes one job per entry, in order |
| OcrOps.RunJobsStopsAtFirstFailure | gui/ocr_ops.py:132-169 | each job run posts its own message, in order; only the last message can report an exception, the run ends early only on one, and when no conversion raises every job runs |
| OcrOps.RunJobsFrom | gui/ocr_ops.py:157-169 | running from job i posts job i's message, then the rest unless that job raised |
| OcrOps.RunInOrder | gui/ocr_ops.py:132-169 | the loop posts exactly the messages of the run: one per job until the first exception |
| OcrOps.FolderModeInOrder | gui/ocr_ops.py:134-153 | for a folder, the PDFs of the listing are reported in listing order, one message each, naming the PDF or the exception, until the first exception; a folder without PDFs gives the one warning |
| OcrOps.FolderOutputInFolder | gui/ocr_ops.py:143-147 | a PDF of the folder is converted into a document saved in that same folder |
| OcrOps.SelectedFilesAreJobs | gui/ocr_ops.py:155-167 | files chosen with the dialog (joined at line 100, split at line 126) reach the file mode unchanged: each selected path becomes its own job |
| OcrOps.StrippedEntriesAreJobs | gui/ocr_ops.py:158-167 | entries that strip to given paths become the jobs of those paths |
| OcrOps.OcrOps.constructor | gui/ocr_ops.py:18-20 | an empty entry box and no messages |
| OcrOps.OcrOps.SelectPdf | gui/ocr_ops.py:95-100 | a non-empty selection replaces the entry with the paths joined by "; "; a cancelled dialog keeps it |
| OcrOps.OcrOps.SelectFolder | gui/ocr_ops.py:67-72 | a chosen folder replaces the entry; a cancelled dialog keeps it |
| OcrOps.OcrOps.RunOcr | gui/ocr_ops.py:117-130 | an empty entry posts only the no-input error; otherwise the entry is split on ';' and the messages of process_files are posted |
| OcrOps.OcrOps.ProcessFiles | gui/ocr_ops.py:132-169 | the first entry decides the mode; in folder mode, a listing that raises reports the error and a folder without PDFs a warning; otherwise the jobs run in order until the first exception |
| OcrOps.OcrOps.ConvertFolder | gui/ocr_ops.py:142-150 | appends the messages of the folder's jobs, in order |
| OcrOps.OcrOps.ConvertFiles | gui/ocr_ops.py:158-167 | appends the messages of the entries' jobs, in order |
| PrintManager.RangeSet | gui/printing/print_manager.py:323 | holds exactly the integers lo..hi-1 |
| PrintManager.RangePieces | gui/printing/print_manager.py:319-323 | "a-b" becomes an interval that is never empty, or is rejected as invalid or reversed |
| PrintManager.PartPages | gui/printing/print_manager.py:317-325 | one part adds a non-empty interval, or is rejected as invalid or reversed |
| PrintManager.PartResults | gui/printing/print_manager.py:316-317 | one result per part |
| PrintManager.CollectParts | gui/printing/print_manager.py:315-325 | the collected pages lie within the tracked bounds |
| PrintManager.SortedWithin | gui/printing/print_manager.py:326 | lists the members of the set that lie within the bounds, strictly ascending, each once |
| PrintManager.AllIndices | gui/printing/print_manager.py:307 | the indices 0..n-1, in order |
| PrintManager.PageRangeOf | gui/printing/print_manager.py:304-329 | "all" selects every file; a missing custom range is refused; otherwise the first bad part decides the refusal, and a good parse is the sorted set of pages; any list is strictly ascending |
| PrintManager.ParsePageRange | gui/printing/print_manager.py:304-329 | returns exactly the page range that PageRangeOf describes |
| PrintManager.CollectPages | gui/printing/print_manager.py:314-325 | the parse loop over the parts gives exactly the collected pages, or the first part's refusal |
| PrintManager.CollectResults | gui/printing/print_manager.py:316-325 | the loop over the parsed parts gives exactly the collected pages, stopping at the first refusal |
| PrintManager.CollectStep | gui/printing/print_manager.py:323-325 | a good part adds its interval to the set and widens the bounds |
| PrintManager.RejectionPersists | gui/printing/print_manager.py:320-329 | once a part is refused, the parse stays refused for that reason |
| PrintManager.CollectedMembers | gui/printing/print_manager.py:315-325 | a parsed set holds exactly the indices that some part contributes |
| PrintManager.SingleNumberPart | gui/printing/print_manager.py:324-325 | the part "n" selects page index n-1 |
| PrintManager.RangePart | gui/printing/print_manager.py:318-323 | "a-b" selects indices a-1..b-1 when a <= b, and is refused as reversed otherwise |
| PrintManager.RangePiecesParsed | gui/printing/print_manager.py:319-323 | two pieces that parse as a and b give the interval a-1..b-1, or the reversed refusal when a > b |
| PrintManager.ExtraDashRejected | gui/printing/print_manager.py:319-329 | a part with two dashes, such as "1-2-3", is refused as invalid |
| PrintManager.ValidByEnds | gui/printing/print_manager.py:343-347 | a non-empty parsed range is valid exactly when its first index is at least 0 and its last is below the file count |
| PrintManager.EndsDecideValidity | gui/printing/print_manager.py:343-347 | for an ascending range, validity is decided by its two ends |
| PrintManager.AllRangeValid | gui/printing/print_manager.py:306-307 | the range "all" always passes the bounds check of _validate_page_range |
| PrintManager.AscendingWithinEnds | gui/printing/print_manager.py:347 | an ascending list lies in 0..n-1 exactly when its two ends do |
| PrintManager.AllIndicesInBounds | gui/printing/print_manager.py:343-347 | every index of "all" (line 307) names an existing file |
| PrintManager.ApplyPageFilter | gui/printing/print_manager.py:331-341 | returns, in index order, the files at the indices that the filter keeps: "odd" keeps even 0-based indices, "even" odd ones, and "all" every index |
| PrintManager.AllFilterMaps | gui/printing/print_manager.py:333-334 | "all" maps each index to its file, in order |
| PrintManager.UnknownFilterSelectsNothing | gui/printing/print_manager.py:336-341 | any other filter value selects nothing |
| PrintManager.OddEvenPartition | gui/printing/print_manager.py:337-340 | "odd" and "even" together select as many files as "all" |
| PrintManager.FilterIsSubsequence | gui/printing/print_manager.py:331-341 | every filter result keeps some of the "all" result, in order |
| PrintManager.PlanPrint | gui/printing/print_manager.py:192-252 | printing goes ahead exactly when there are files, a printer is chosen and available, the range parses and is valid, the filter leaves files, and a job of more than 50 files is confirmed; the job is then the filtered files |
| PrintManager.PrintStep | gui/printing/print_manager.py:256-274 | the corrected pass, naming the failing file: one pass appends one log line naming the file; it is a "sent" line, and adds one to the count, exactly when the file exists and prints |
| PrintManager.PrintFilesCorrected | gui/printing/print_manager.py:255-274 | the corrected loop gives exactly the count and log of the corrected run over all files |
| PrintManager.PrintRunLog | gui/printing/print_manager.py:255-274 | the corrected loop logs one log line per file, in order, naming that file (the failing file, for a failure); a "sent" line exactly for the files that exist and print |
| PrintManager.PrintRunCounts | gui/printing/print_manager.py:255-282 | in the corrected loop the count printed equals the "sent" lines, so "Errors" counts exactly the missing and failed files |
| PrintManager.SentCount | gui/printing/print_manager.py:269 | the number of "sent" lines is at most the number of lines |
| PrintManager.SentCountPrefix | gui/printing/print_manager.py:269 | one more line adds one to the count exactly when it is a "sent" line |
| PrintManager.CheckPrint | gui/printing/print_manager.py:192-252 | the checks run in the source's order and give exactly the plan of `PlanPrint` |
| PrintManager.PrintSplitFiles | gui/printing/print_manager.py:190-286 | as written: a refused plan prints nothing and gives the refusal; otherwise the loop as written runs, and either raises after the lines logged so far, or shows the summary of the printer, the files selected, the count printed and the errors |
| PrintManager.PrintSplitFilesCorrected | gui/printing/print_manager.py:190-286 | the same checks, then the corrected loop, which always finishes and always shows the summary |
| PrintManager.PrintFilesAsWritten | gui/printing/print_manager.py:255-274 | the loop as written gives exactly the count, log and crash of the run as written, stopping at the first failure before any success |
| PrintManager.AsWrittenCrashFinal | gui/printing/print_manager.py:273-274 | once the loop as written has raised, later files change nothing |
| PrintManager.AsWrittenCrash | gui/printing/print_manager.py:270-274 | the loop as written raises exactly when an existing file fails to print before any file has printed; until then `filename` is bound exactly when some file has printed |
| PrintManager.AsWrittenLog | gui/printing/print_manager.py:255-274 | unless it raises, the loop as written logs one line per file, with a "sent" line exactly for the files that exist and print |
| PrintManager.AsWrittenCounts | gui/printing/print_manager.py:255-282 | the loop as written counts exactly its "sent" lines, so "Errors" counts the missing and failed files |
| PrintManager.PrintFailureMisreported | gui/printing/print_manager.py:270-274 | as written, a failure after a success is logged under the previously printed file, and a failure before any success crashes; the corrected loop names the failing file |
| PrintManager.AsWrittenAgreesWithoutFailures | gui/printing/print_manager.py:255-274 | where no print command raises, the loop as written and the corrected loop agree |
| Split.GsPreset | logic/split.py:48-67 | "high" gives /printer, "low" gives /screen, and every other level gives /ebook |
| Split.TempPathIsNotInput | logic/split.py:54-68 | the temporary output is never the file being compressed |
| Split.GsFailureMessage | logic/split.py:85-87 | a failed run raises "Compression failed: " plus the stripped error output, or "Unknown Ghostscript error" when that is empty |
| Split.GhostscriptCompress | logic/split.py:46-91 | the compressed copy replaces the file exactly when the run succeeds and the copy is below 99% of the original size; failures raise their message; the temporary is gone afterwards, the file never grows, and no other file changes |
| Split.FirstWriteFailure | logic/split.py:19-26 | the first page whose file cannot be written, or the page count: every page before it is written |
| Split.WritePages | logic/split.py:19-38 | pages are written, and compressed when asked, in order until one cannot be written, whose truncated file stays when `open` had already created it; each written page reports (n, total); Ghostscript errors do not stop the loop |
| Split.WritePage | logic/split.py:20-35 | one pass writes the page's file and then compresses it when asked; the page file exists afterwards unless Ghostscript removed it |
| Split.SplitPdf | logic/split.py:6-43 | a missing input fails before anything is written; an unreadable one fails with the reader's error; otherwise the result and the files are those of the page loop, a truncated page file included, and a success reports the page count |
| Split.PagePathInjective | logic/split.py:20 | different pages are written to different files |
| Split.PagePathIsNoTemp | logic/split.py:20 | a page file is never some file's temporary Ghostscript output (named at line 54) |
| Split.SplitFsPages | logic/split.py:19-35 | after the first m pages each has its own file: as written or, when compressing, no larger, with no temporary beside it |
| Split.SplitFsKeepsOthers | logic/split.py:19-35 | every other file keeps its size, except that a stale temporary named after a page file is removed |
| Split.PageFsFrame | logic/split.py:20-35 | writing one page touches only its own file and that file's temporary name, which the cleanup of lines 88-91 removes |
| Split.FailedSplitLeavesPartialPage | logic/split.py:19-26 | a split failing at a page keeps the files of the pages before it, and leaves that page's truncated file exactly when the file had been opened |
| Split.SplitWritesEveryPage | logic/split.py:19-40 | a split that succeeds leaves one file per page and, when compressing, no temporary beside any of them |
| LogViewer.Kept | logic/log_viewer.py:72-94 | keeps, in order, exactly the lines that pass all four filter guards |
| LogViewer.Terminated | logic/log_viewer.py:94 | each kept line is followed by a newline |
| LogViewer.Shown | logic/log_viewer.py:99-101 | the text shown is never empty: without filters it is the whole log when that is non-empty, and an empty result becomes "No matching entries" |
| LogViewer.ConcatTerminatedEmpty | logic/log_viewer.py:94-101 | the joined text is empty exactly when no line is kept, and otherwise ends in a newline |
| LogViewer.ShownNoMatches | logic/log_viewer.py:96-101 | with filters, "No matching entries" is shown exactly when no line passes; otherwise the kept lines are shown |
| LogViewer.KeptInOrder | logic/log_viewer.py:72-94 | the kept lines appear in the log's order |
| LogViewer.DefaultFiltersDropBlankLines | logic/log_viewer.py:75-92 | with the fields at their defaults only blank lines are dropped, and a non-blank line always has a first word, so the IndexError handler is never reached |
| LogViewer.KeywordIgnoresCase | logic/log_viewer.py:79 | a keyword and its lower-cased form keep the same lines |
| LogViewer.LevelIsCaseSensitive | logic/log_viewer.py:83 | the level "error" does not let an "ERROR" line through |
| LogViewer.LevelMatchKept | logic/log_viewer.py:83 | with only the level field set, a level other than "All" keeps exactly the non-blank lines that contain it, case as written |
| LogViewer.PassesFilters | logic/log_viewer.py:74-92 | the continue guards, tried in order, keep exactly the lines the filters keep |
| LogViewer.KeptStep | logic/log_viewer.py:73-94 | one more line adds its entry exactly when the filters keep it |
| LogViewer.FilterLines | logic/log_viewer.py:72-94 | the loop's list is exactly the kept lines, each followed by a newline |
| LogViewer.FilterLogs | logic/log_viewer.py:71-96 | the filtered text is the kept lines of the log, split on newlines, joined |
| LogViewer.LogText.constructor | logic/log_viewer.py:37-54 | the new widget shows the initial load without filters, and is left disabled exactly when the log was read |
| LogViewer.LogText.Replace | logic/log_viewer.py:99-102 | replacing the text (also done at lines 66-67) takes effect exactly when the widget is not disabled |
| LogViewer.LogText.RefreshLogs | logic/log_viewer.py:59-103 | a read log is shown and the widget left disabled; a missing log writes its notice only into a widget that is still enabled |
| LogViewer.LogText.RefreshLogsCorrected | logic/log_viewer.py:59-103 | a refresh always shows what it is meant to (the filtered log, or the missing-file notice) and leaves the widget disabled |
| LogViewer.LogText.AutoRefresh | logic/log_viewer.py:105-109 | while the window exists the as-written refresh runs with the filter fields, so a log removed since the last refresh leaves the old entries on screen; otherwise nothing changes |
| LogViewer.LogText.ClearLogs | logic/log_viewer.py:111-119 | once confirmed, the log becomes empty and the refresh as written shows "No matching entries"; a failed write is reported and changes nothing; a declined one changes nothing |
| LogViewer.StaleEntriesAfterLogRemoved | logic/log_viewer.py:64-102 | once a refresh has shown the log, a later refresh that finds no log file keeps showing the old entries |
| StructureGenerator.Indent | structure_generator.py:31 | four spaces per level |
| StructureGenerator.Insert | structure_generator.py:20 | inserting keeps the same entries, plus the new one |
| StructureGenerator.InsertSorted | structure_generator.py:20 | inserting into a name-sorted list keeps it sorted |
| StructureGenerator.SortByName | structure_generator.py:19-20 | the sorted entries are the listed ones, in name order |
| StructureGenerator.NameLeTotal | structure_generator.py:20 | any two names are ordered one way or the other |
| StructureGenerator.NameLeTransitive | structure_generator.py:20 | the name order is transitive |
| StructureGenerator.NameLeAntisymmetric | structure_generator.py:20 | two names ordered both ways are equal |
| StructureGenerator.CountSorted | structure_generator.py:19-20 | sorting does not change how many lines the entries contribute |
| StructureGenerator.OutlineCount | structure_generator.py:24-36 | the listing has one line for each entry that is not ignored and is not inside an ignored directory |
| StructureGenerator.OutlineItemsCount | structure_generator.py:24-34 | the entries, in any given order, contribute as many lines as their count says |
| StructureGenerator.OutlineDepths | structure_generator.py:31-34 | every line of a directory's listing sits at least as deep as its entries |
| StructureGenerator.OutlineItemsDepths | structure_generator.py:31-34 | the same, for the entries in any given order |
| StructureGenerator.VisibleNames | structure_generator.py:28-29 | holds exactly the names of the entries that are not ignored |
| StructureGenerator.ItemTopNames | structure_generator.py:28-34 | an entry's lines name it at its own level, unless it is ignored, and nothing else at that level |
| StructureGenerator.OutlineItemsTopNames | structure_generator.py:24-34 | the lines at the entries' own level name the entries that are not ignored, in order |
| StructureGenerator.TopLevelNames | structure_generator.py:19-34 | the lines at a directory's own level name its entries that are not ignored, in sorted name order |
| StructureGenerator.TextFromStep | structure_generator.py:24-34 | the text from the i-th entry on is that entry's own text, then the rest |
| StructureGenerator.GenerateTree | structure_generator.py:6-36 | the text is the rendered listing of the directory, with missing ignore lists replaced by the defaults and the resolved lists passed down |
| StructureGenerator.ListEntries | structure_generator.py:24-34 | the loop's text is the rendered lines of the given entries, in order |
| StructureGenerator.ListEntry | structure_generator.py:25-34 | an ignored entry adds nothing; otherwise its line, then a directory's own listing one level deeper |
| StructureGenerator.TextNewlines | structure_generator.py:31 | a listing whose names hold no newline has exactly one text line per entry |
| StructureGenerator.ListedTree | structure_generator.py:45-47 | the tree the listing sees once the output file is opened: the same entries, plus a file of the output's name when the output lies in the root and no entry has that name; unchanged when the output lies elsewhere |
| StructureGenerator.SaveTreeToFile | structure_generator.py:38-47 | writes to the given file, or else to project_structure.txt joined to the root, whose directory is the root; the content is the root path, then the listing, with the default ignore lists, of the tree in which the output file already exists; nothing is written when a directory bears the output's name |
| StructureGenerator.ListsOutputFile | structure_generator.py:45-47 | when the output lies in the root and no directory bears its name, the saved listing names the output file at the top level unless the file list hides it |
| StructureGenerator.DefaultRunListsItself | structure_generator.py:40-47 | a default run lists project_structure.txt itself at the top level, unless a directory bears that name |
| StructureGenerator.DocumentLines | structure_generator.py:45-47 | the saved document has one line for the root and one per listed entry |
| StructureGenerator.SingleEntry | structure_generator.py:19-34 | a directory with one entry lists just that entry's lines |
| StructureGenerator.EmptyDir | structure_generator.py:19-36 | an empty directory lists nothing |
| StructureGenerator.DefaultIgnoresGitDir | structure_generator.py:8-29 | by default a ".git" directory is left out together with everything it holds |
| StructureGenerator.LoneFileListedUnlessIgnored | structure_generator.py:28 | a file is hidden only when its name is in the file list, whatever the directory list holds; otherwise it is listed |
| StructureGenerator.DefaultIgnoresDsStoreFile | structure_generator.py:10-29 | by default a ".DS_Store" file is left out |
| StructureGenerator.LoneDirListedUnlessIgnored | structure_generator.py:28 | a directory is hidden only when its name is in the directory list, whatever the file list holds; otherwise it is listed and followed by its own entries one level deeper |
| StructureGenerator.Main | structure_generator.py:57-88 | uses ASCII when asked or on Windows, writes to the given output or to project_structure.txt in the project directory, and saves the tree, with the output file in it, with the default ignore lists |
| StructureGenerator.IgnoreOptionIsDropped | structure_generator.py:84-88 | as written (the option is parsed at line 62), a directory named with --ignore-dirs is still listed: the document is the root line "p", then the ASCII branch lines for "build" and for project_structure.txt |
| StructureGenerator.SortTwo | structure_generator.py:19-20 | two entries already in name order keep their order |
| StructureGenerator.TwoEntries | structure_generator.py:19-34 | a directory of two entries in name order lists the first entry's lines, then the second's |
| StructureGenerator.BuildOutline | structure_generator.py:24-34 | a project holding an empty "build" directory and the output file lists "build", then project_structure.txt |
| StructureGenerator.BuildTree | structure_generator.py:45-47 | opening the default output adds project_structure.txt beside "build" |
| StructureGenerator.TopLinesText | structure_generator.py:31 | two top-level ASCII lines render as branch, name and newline, twice |
| StructureGenerator.BuildWritesListed | structure_generator.py:40-47 | the default run on a project holding only "build" writes the listing of the tree with the output file added |
| StructureGenerator.BuildListed | structure_generator.py:40-47 | that project's saved document is the root line "p", the ASCII branch line for "build", then the one for project_structure.txt |
| StructureGenerator.MainCorrected | structure_generator.py:57-88 | like main, but the tree honours the ignore options, and missing options take the defaults |
| StructureGenerator.IgnoreOptionRespected | structure_generator.py:28-29 | with the --ignore-dirs option of line 62 passed on, no directory named with --ignore-dirs appears at the top level, and the rest are listed in sorted order |
| Strings.BlankPrefix | gui/ocr_ops.py:159 | the blank prefix of a string: all blank, followed by a non-blank character or the end |
| Strings.LStrip | gui/ocr_ops.py:159 | drops exactly the blank prefix |
| Strings.RStrip | gui/ocr_ops.py:159 | drops exactly the blank suffix |
| Strings.Strip | gui/ocr_ops.py:159 | the result has no blank at either end, and is empty exactly when the string is blank |
| Strings.StripPadded | gui/ocr_ops.py:159 | stripping a trimmed string that is padded with blanks on the left gives the string back |
| Strings.ReplaceAllAbsent | logic/merging.py:32 | replace leaves a string without the pattern unchanged |
| Strings.ReplaceAllSuffix | logic/merging.py:32 | when the pattern occurs only as the suffix, replace swaps exactly that suffix |
| Strings.ReplaceAllRemoves | logic/ocr.py:45 | replacing every newline by a text without one leaves no newline |
| Strings.Lower | logic/compression.py:19 | lower-casing keeps the length |
| Strings.Split | logic/log_viewer.py:73 | splitting never gives an empty list, and gives a single part exactly when the separator is absent |
| Strings.SplitJoinPadded | gui/ocr_ops.py:100-126 | joining with the separator and a padding (line 100), then splitting (line 126), gives the parts back with the padding in front of each part but the first |
| Strings.SplitJoin | gui/ocr_ops.py:126 | splitting a join on the same separator gives the parts back |
| Strings.FirstWord | logic/log_viewer.py:89 | there is no first word exactly when the line is blank; a first word is non-empty and holds no blank |
| Strings.NatToString | gui/printing/print_manager.py:319-325 | a decimal rendering is non-empty and all digits |
| Strings.ParseIntOfNat | gui/printing/print_manager.py:319-325 | int() of a number's decimal rendering gives the number back |
| Strings.NatToStringInjective | logic/split.py:20 | different numbers have different decimal renderings |
| Paths.Basename | gui/merging_ops.py:393 | the base name holds no '/' and is what follows the last '/' |
| Paths.Stem | logic/ocr.py:53 | the stem is a prefix of the name; when shorter, it stops at the last '.' |
| Paths.BasenameJoin | logic/ocr.py:53-55 | joining a directory with a plain name gives that name back as the base name |
| Paths.DirnameJoin | gui/ocr_ops.py:143-144 | joining a directory with a plain name gives that directory back as the directory name |
| Paths.JoinEndsWith | logic/compression.py:20 | a joined path ends with the part joined on |
| Paths.JoinInjective | gui/ocr_ops.py:143 | joined onto the same directory, two relative names give the same path only when they are equal |

## Left out

- Threads, `ThreadPoolExecutor`, `as_completed`, `root.after` and the locks: work runs in order. The order of completions, and the moments at which cancel is pressed, are parameters of `CompressionOps.CompressionOps.CompressFiles`.
- Widget construction, styling, tooltips and the open/print buttons are pure interface code. So are gui/main_window.py, gui/splitting_ops.py, gui/spliting_ops.py, logic/help_window.py and main.py.
- The PDF, OCR and document libraries (pikepdf, PyPDF2, PyMuPDF, pytesseract, python-docx), Ghostscript, `lp` and `os.startfile`: what they do with each file is a parameter. The image recompression inside `compress_pdf` is therefore not modelled.
- The file system calls (`os.walk`, `os.listdir`, `getsize`, `exists`, `isdir`, `isfile`, `os.remove`, `os.replace`, `open`) are parameters. The exception is `logic/split.py`, where the file system is a map from path to size.
- In `logic/split.py`, the map holds files only, so the directory that `os.makedirs` creates is not in it. A `makedirs` failure can only be represented as a failure to open the first page.
- `find_pdfs` catches errors while scanning. The model does not cover that `except` branch, because `os.walk` reports errors through a callback that the code does not pass, so the branch does not arise from the walk.
- Compression.CompressPdf: the size of the saved file is whatever the library reports. Overwriting the input in place (`allow_overwriting_input`) is not modelled. `CompressionOps.ProcessSingleFile` passes the output path and the overwrite flag to the library parameter, which decides the outcome.
- CompressionOps.OutputPathOfPdf: covers only names whose one ".pdf" is a lower-case extension. For an upper- or mixed-case extension such as "SCAN.PDF", which `find_pdfs` accepts, keeping originals asks `compress_pdf` to save over its own input without `overwrite` (`CompressionOps.KeptOriginalTargetIsInput`). What pikepdf then does is up to the library parameter.
- `merge_files_thread` of gui/merging_ops.py is not modelled. It passes `log_callback` to `merge_pdfs`, which has no such parameter. It also reads the summary as a dictionary, while `merge_pdfs` returns a string. `_handle_merge_success` is modelled through its ratio clamp only (`MergingOps.MergeSavings`).
- `merger.close`, `doc.close` and the logging calls have no effect on the results and are left out, as are the `print` messages of `split_pdf`.
- `truncate_path`, `truncate_filename`, `is_directory_writable` and `CustomText` are imported from gui/utils.py, and gui/utils.py is not part of this model. The writability probe is a parameter. Print log lines carry the file path instead of the truncated name.
- Float formatting (the MB figures, `:.1f` and `:.2f`) and the `time.sleep` durations are left out. Ratios are exact `real`s.
- CompressionOps.CompressionOps.UpdateProgress: the percentage is the exact floor of progress·100/total. Python's float `int((p / n) * 100)` can differ from that by rounding. The same holds for `MergingOps.MergingOps.UpdateProgress` and `MergingOpsCv.MergingOpsCv.UpdateProgress`.
- Strings.Lower: only the ASCII letters are lower-cased. Python's `lower()` also folds other letters.
- Strings.Split: only `split` on one separator character is modelled, which is the only form the logic uses apart from `split()` on blanks (`Strings.FirstWord`).
- Paths.Basename: paths are POSIX paths. Windows drive letters and backslashes are not modelled.
- The tree of `generate_tree` is a value. Symbolic links, directory cycles, unreadable directories and a root that is not a directory are not modelled.
- StructureGenerator.SaveTreeToFile: the output file is added to the listed tree only when its directory is spelled exactly as the root. An output in a subdirectory of the project, or one naming the root another way, is listed as the tree already was. A failure to open an output outside the project is not modelled.
- StructureGenerator.SaveTreeToFile: the UnicodeEncodeError retry is not modelled. A Dafny string cannot hold the unpaired surrogate that would raise it. How the project path is made absolute is a parameter of `StructureGenerator.Main`.
- In print_split_files, the second `except Exception` after `_parse_page_range` can never run. The first one only logs and cannot be reached here, because `_parse_page_range` catches its own ValueError. The other errors it might catch come from the interface.
- The collate and duplex options only appear in the summary text, so they are not modelled.
- CompressionOps.CompressionOps.CompressFiles: a cancel stops only the handling loop. Leaving the executor's `with` block waits for every submitted file, so each file is still compressed, and with "delete originals" overwritten in place. `outcomes` holds every file's outcome, but those file effects are not modelled.
- Strings.ParseInt: only an optional sign and ASCII digits are accepted. Python's `int()` also accepts single underscores between digits ("1_0" is 10) and non-ASCII decimal digits. So `PrintManager.ParsePageRange` rejects some page ranges that the source accepts.
- PrintManager.ParsePageRange: inherits that narrower reading of numbers from `Strings.ParseInt`.
- Tk's scrolling (`see`, `yview`) and the periodic 30-second scheduling of `auto_refresh` are left out. `LogViewer.LogText.AutoRefresh` models one firing.

## Findings

| source | as written | input that shows it | evidently intended | confidence | as-written member | corrected member |
|---|---|---|---|---|---|---|
| gui/printing/print_manager.py:270-274 | the failure message uses `filename`, which only a successful print assigns (`PrintManager.PrintSplitFiles`) | files [a, b] that both exist, where a prints and b's print raises e: the log says "Failed a: e"; a single file whose print raises: UnboundLocalError, and no summary is shown | the message names the file whose print failed | high (not executed) | PrintManager.PrintFailureMisreported | PrintManager.PrintSplitFilesCorrected |
| gui/compression_ops.py:287 | successes are counted as files minus the skips tallied before the cancel, so every file the loop did not look at counts as a success, even one that is skipped or fails | two files, cancel pressed before the first completion, the second below the minimum size: the executor still compresses the first and skips the second, yet the summary says "Success: 2" | report the outcome of every file, tallying the completions after the cancel too | high (not executed) | CompressionOps.SuccessOvercountAfterCancel | CompressionOps.CorrectedSuccessCount |
| logic/log_viewer.py:64-68 | the missing-file notice is written without re-enabling the widget, which the previous refresh left disabled | refresh with a log present, delete the log, press "Refresh All" (or let the periodic refresh fire): the old entries stay on screen | show "No log file found" | high (not executed) | LogViewer.StaleEntriesAfterLogRemoved | LogViewer.LogText.RefreshLogsCorrected |
| structure_generator.py:62-88 | `--ignore-dirs` and `--ignore-files` are parsed but never passed on | `--ignore-dirs build` on a project holding an empty "build" directory: the file still lists "build" | pass the lists to `generate_tree` | high (not executed) | StructureGenerator.IgnoreOptionIsDropped | StructureGenerator.IgnoreOptionRespected |
