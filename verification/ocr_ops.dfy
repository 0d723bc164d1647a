/**
 * Model of gui/ocr_ops.py: the OCR front-end. The entry box holds either a
 * folder or the selected files joined with "; "; `run_ocr` splits it again
 * and `process_files` converts either every PDF of the folder or every
 * selected file that is a PDF, stopping at the first exception. What the
 * filesystem answers (`isdir`, `isfile`, `listdir`) and whether `ocr_pdf`
 * raises for a file are parameters; a conversion that succeeds returns the
 * path `ocr_pdf` saves to.
 */
module OcrOps {
  import opened Wrappers
  import opened Strings
  import Paths
  import Ocr

  /** One call of `update_message`, by the event it reports. */
  datatype Message =
    | NoInput                                  // nothing selected
    | NoPdfsInFolder                           // the folder holds no PDF
    | Completed(name: string, source: string)  // "OCR complete for: ... Saved to: ..." about the PDF `source`
    | Skipped(path: string)                    // "Skipping invalid file"
    | Failed(error: string)                    // an exception ended the run

  /**
   * The text `update_message` adds to the widget. The warning and error
   * texts already begin with "Warning: " or "Error: ", and `update_message`
   * prefixes them again.
   */
  function Display(m: Message): (r: string)
    ensures EndsWith(r, "\n")
    ensures m.NoInput? || m.Failed? ==> StartsWith(r, "Error: Error: ")
    ensures m.NoPdfsInFolder? || m.Skipped? ==> StartsWith(r, "Warning: Warning: ")
    ensures m.Completed? ==> StartsWith(r, "OCR complete for: " + m.name + "\nSaved to: " + Converted(m.source))
  {
    var head := match m
      case NoInput => "Error: " + "Error: "
      case NoPdfsInFolder => "Warning: " + "Warning: "
      case Completed(name, source) => "OCR complete for: " + name + "\nSaved to: " + Converted(source)
      case Skipped(_) => "Warning: " + "Warning: "
      case Failed(_) => "Error: " + "Error: ";
    var detail := match m
      case NoInput => "No PDF or folder selected!"
      case NoPdfsInFolder => "No PDF files found in the selected folder."
      case Completed(_, _) => ""
      case Skipped(path) => "Skipping invalid file: " + path
      case Failed(error) => error;
    LineStartsWith(head, detail);
    head + detail + "\n"
  }

  /** A line built from a head and a detail starts with the head and ends with a newline. */
  lemma LineStartsWith(head: string, detail: string)
    ensures StartsWith(head + detail + "\n", head)
    ensures EndsWith(head + detail + "\n", "\n")
  {
    assert (head + detail + "\n")[..|head|] == head;
  }

  // ----- the entry box -----

  /** The separator `select_pdf` puts between the selected paths. */
  const EntrySeparator := "; "

  /**
   * Selected paths joined for the entry box, split again on ';' and stripped,
   * give the selection back, provided no path contains ';' or starts or
   * ends with a blank.
   */
  lemma SelectionRoundTrip(paths: seq<string>)
    requires |paths| >= 1
    requires forall i :: 0 <= i < |paths| ==> ';' !in paths[i] && Trimmed(paths[i])
    ensures |Split(Join(paths, EntrySeparator), ';')| == |paths|
    ensures Split(Join(paths, EntrySeparator), ';')[0] == paths[0]
    ensures forall i :: 0 <= i < |paths| ==> Strip(Split(Join(paths, EntrySeparator), ';')[i]) == paths[i]
  {
    assert EntrySeparator == [';'] + " ";
    SplitJoinPadded(paths, ';', " ");
    var parts := Split(Join(paths, EntrySeparator), ';');
    forall i | 0 <= i < |paths|
      ensures Strip(parts[i]) == paths[i]
    {
      if i == 0 {
        assert "" + paths[0] == paths[0];
        StripPadded("", paths[0]);
      } else {
        StripPadded(" ", paths[i]);
      }
    }
  }

  // ----- what process_files converts -----

  /** The file names `listdir` gave that end in ".pdf" (case-sensitive), in listing order. */
  function PdfNames(names: seq<string>): (r: seq<string>)
    ensures forall f :: f in r <==> f in names && EndsWith(f, ".pdf")
  {
    if names == [] then []
    else
      var last := names[|names| - 1];
      PdfNames(names[..|names| - 1]) + (if EndsWith(last, ".pdf") then [last] else [])
  }

  /** The PDF names come in the order `listdir` gave them. */
  lemma {:induction false} PdfNamesInOrder(names: seq<string>)
    ensures SubsequenceOf(PdfNames(names), names)
  {
    if names != [] {
      var init := names[..|names| - 1];
      PdfNamesInOrder(init);
      var r := PdfNames(names);
      assert names[..|names| - 1] == init;
      if EndsWith(names[|names| - 1], ".pdf") {
        assert r[..|r| - 1] == PdfNames(init);
      } else {
        assert r == PdfNames(init);
      }
    }
  }

  /** One unit of work of `process_files`: a PDF to convert (with the name its message shows) or a path to skip. */
  datatype Job = Convert(path: string, shown: string) | Skip(path: string)

  /** The folder mode converts every PDF of the folder, joined onto the folder path. */
  function FolderJobs(folder: string, pdfs: seq<string>): (jobs: seq<Job>)
    ensures |jobs| == |pdfs|
    ensures forall i :: 0 <= i < |pdfs| ==> jobs[i] == Convert(Paths.Join(folder, pdfs[i]), pdfs[i])
  {
    seq(|pdfs|, i requires 0 <= i < |pdfs| => Convert(Paths.Join(folder, pdfs[i]), pdfs[i]))
  }

  /** The file mode strips each entry and converts it only if it is a file ending in ".pdf". */
  function FileJob(entry: string, isFile: string -> bool): (job: Job)
    ensures job.path == Strip(entry)
    ensures job.Convert? <==> isFile(Strip(entry)) && EndsWith(Strip(entry), ".pdf")
    ensures job.Convert? ==> job.shown == Paths.Basename(Strip(entry))
  {
    var path := Strip(entry);
    if isFile(path) && EndsWith(path, ".pdf") then Convert(path, Paths.Basename(path)) else Skip(path)
  }

  function FileJobs(entries: seq<string>, isFile: string -> bool): (jobs: seq<Job>)
    ensures |jobs| == |entries|
    ensures forall i :: 0 <= i < |entries| ==> jobs[i] == FileJob(entries[i], isFile)
  {
    seq(|entries|, i requires 0 <= i < |entries| => FileJob(entries[i], isFile))
  }

  /**
   * What `ocr_pdf(path, dirname(path), language)` returns when it does not
   * raise: both loops pass the PDF's own directory as the output directory.
   */
  function Converted(path: string): string {
    Ocr.OutputPath(path, Paths.Dirname(path), "docx")
  }

  /** The message job `job` produces, given what `ocr_pdf` raises for each path. */
  function Outcome(job: Job, ocrError: string -> Option<string>): Message {
    match job
    case Skip(path) => Skipped(path)
    case Convert(path, shown) =>
      match ocrError(path)
      case None => Completed(shown, path)
      case Some(e) => Failed(e)
  }

  /**
   * The jobs run one after the other inside a single `try`: each produces
   * its message, and the first exception ends the run.
   */
  function RunJobs(jobs: seq<Job>, ocrError: string -> Option<string>): seq<Message>
  {
    if jobs == [] then []
    else
      var m := Outcome(jobs[0], ocrError);
      if m.Failed? then [m] else [m] + RunJobs(jobs[1..], ocrError)
  }

  /**
   * Each job run produces its own message, in order; only the last message
   * can report an exception, and the run ends early only on one; when no
   * conversion raises, every job is run.
   */
  lemma {:induction false} RunJobsStopsAtFirstFailure(jobs: seq<Job>, ocrError: string -> Option<string>)
    ensures var r := RunJobs(jobs, ocrError);
      |r| <= |jobs| &&
      (forall i :: 0 <= i < |r| ==> r[i] == Outcome(jobs[i], ocrError)) &&
      (forall i :: 0 <= i < |r| - 1 ==> !r[i].Failed?) &&
      (|r| < |jobs| ==> r != [] && r[|r| - 1].Failed?) &&
      ((forall i :: 0 <= i < |jobs| ==> !Outcome(jobs[i], ocrError).Failed?) ==> |r| == |jobs|)
  {
    if jobs != [] {
      var m := Outcome(jobs[0], ocrError);
      if !m.Failed? {
        RunJobsStopsAtFirstFailure(jobs[1..], ocrError);
        assert forall i :: 1 <= i < |jobs| ==> jobs[1..][i - 1] == jobs[i];
      }
    }
  }

  /** Running the jobs from position `i` on: job i's message, then the rest unless it failed. */
  lemma RunJobsFrom(jobs: seq<Job>, i: nat, ocrError: string -> Option<string>)
    requires i < |jobs|
    ensures var m := Outcome(jobs[i], ocrError);
      RunJobs(jobs[i..], ocrError) == if m.Failed? then [m] else [m] + RunJobs(jobs[i + 1..], ocrError)
  {
    assert jobs[i..][0] == jobs[i];
    assert jobs[i..][1..] == jobs[i + 1..];
  }

  /**
   * The body of both loops of `process_files`: the jobs run in order inside
   * one `try`, a message is posted for each, and the first exception is
   * posted and ends the loop.
   */
  method RunInOrder(jobs: seq<Job>, ocrError: string -> Option<string>) returns (posted: seq<Message>)
    ensures posted == RunJobs(jobs, ocrError)
  {
    posted := [];
    var stopped := false;
    var i := 0;
    while i < |jobs| && !stopped
      invariant 0 <= i <= |jobs|
      invariant !stopped ==> posted + RunJobs(jobs[i..], ocrError) == RunJobs(jobs, ocrError)
      invariant stopped ==> posted == RunJobs(jobs, ocrError)
    {
      RunJobsFrom(jobs, i, ocrError);
      // Converting or skipping the entry yields its message.
      var m := Outcome(jobs[i], ocrError);
      posted := posted + [m];
      stopped := m.Failed?;
      i := i + 1;
    }
  }

  /**
   * `process_files`: the first entry decides the mode. For a folder, a
   * listing that raises (Err) reports the exception and a listing without
   * PDFs a warning; otherwise, and in the file mode, the jobs are run.
   */
  function ProcessRun(filePaths: seq<string>, isDir: string -> bool, listing: Result<seq<string>>,
                      isFile: string -> bool, ocrError: string -> Option<string>): seq<Message>
    requires filePaths != []
  {
    if isDir(filePaths[0]) then
      match listing
      case Err(e) => [Failed(e)]
      case Ok(names) =>
        var pdfs := PdfNames(names);
        if pdfs == [] then [NoPdfsInFolder] else RunJobs(FolderJobs(filePaths[0], pdfs), ocrError)
    else RunJobs(FileJobs(filePaths, isFile), ocrError)
  }

  /**
   * The folder mode reports on the folder's PDFs in listing order, one
   * message each, until the first exception.
   */
  lemma FolderModeInOrder(folder: string, names: seq<string>, isDir: string -> bool,
                          isFile: string -> bool, ocrError: string -> Option<string>)
    requires isDir(folder)
    requires folder != [] && folder[|folder| - 1] != '/'
    requires forall f :: f in names ==> '/' !in f
    ensures var r := ProcessRun([folder], isDir, Ok(names), isFile, ocrError);
      var pdfs := PdfNames(names);
      (pdfs == [] ==> r == [NoPdfsInFolder]) &&
      (pdfs != [] ==>
        |r| <= |pdfs| &&
        (forall i :: 0 <= i < |r| ==>
          r[i] == (match ocrError(Paths.Join(folder, pdfs[i]))
                   case None => Completed(pdfs[i], Paths.Join(folder, pdfs[i]))
                   case Some(e) => Failed(e))))
  {
    var pdfs := PdfNames(names);
    if pdfs != [] {
      var jobs := FolderJobs(folder, pdfs);
      var r := RunJobs(jobs, ocrError);
      RunJobsStopsAtFirstFailure(jobs, ocrError);
      forall i | 0 <= i < |r|
        ensures Paths.Dirname(Paths.Join(folder, pdfs[i])) == folder
      {
        assert pdfs[i] in pdfs;
        Paths.DirnameJoin(folder, pdfs[i]);
      }
    }
  }

  /** A PDF of the folder is converted into a document saved in that same folder. */
  lemma FolderOutputInFolder(folder: string, name: string)
    requires folder != [] && folder[|folder| - 1] != '/'
    requires '/' !in name
    ensures Paths.Dirname(Converted(Paths.Join(folder, name))) == folder
  {
    Paths.DirnameJoin(folder, name);
    Ocr.OutputPathName(Paths.Join(folder, name), folder, "docx");
  }

  /**
   * Files chosen with `select_pdf` reach the file mode unchanged: each
   * selected path becomes the job of that path, whatever its position.
   */
  lemma SelectedFilesAreJobs(paths: seq<string>, isFile: string -> bool)
    requires |paths| >= 1
    requires forall i :: 0 <= i < |paths| ==> ';' !in paths[i] && Trimmed(paths[i])
    ensures var jobs := FileJobs(Split(Join(paths, EntrySeparator), ';'), isFile);
      |jobs| == |paths| &&
      forall i :: 0 <= i < |paths| ==>
        jobs[i] == (if isFile(paths[i]) && EndsWith(paths[i], ".pdf")
                    then Convert(paths[i], Paths.Basename(paths[i])) else Skip(paths[i]))
  {
    SelectionRoundTrip(paths);
    StrippedEntriesAreJobs(Split(Join(paths, EntrySeparator), ';'), paths, isFile);
  }

  /** Entries that strip to the given paths become the jobs of those paths. */
  lemma StrippedEntriesAreJobs(entries: seq<string>, paths: seq<string>, isFile: string -> bool)
    requires |entries| == |paths|
    requires forall i :: 0 <= i < |paths| ==> Strip(entries[i]) == paths[i]
    ensures var jobs := FileJobs(entries, isFile);
      |jobs| == |paths| &&
      forall i :: 0 <= i < |paths| ==>
        jobs[i] == (if isFile(paths[i]) && EndsWith(paths[i], ".pdf")
                    then Convert(paths[i], Paths.Basename(paths[i])) else Skip(paths[i]))
  {
  }

  // ----- the interface object -----

  class OcrOps {
    var inputEntry: string
    var messages: seq<Message>

    /** An empty entry box and message area. */
    constructor()
      ensures inputEntry == "" && messages == []
    {
      inputEntry := "";
      messages := [];
    }

    /** `select_pdf`: a non-empty selection replaces the entry with the paths joined by "; ". */
    method SelectPdf(filepaths: seq<string>)
      modifies this
      ensures inputEntry == (if filepaths != [] then Join(filepaths, EntrySeparator) else old(inputEntry))
      ensures messages == old(messages)
    {
      if filepaths != [] {
        inputEntry := Join(filepaths, EntrySeparator);
      }
    }

    /** `select_folder`: a chosen folder replaces the entry. */
    method SelectFolder(folder: string)
      modifies this
      ensures inputEntry == (if folder != "" then folder else old(inputEntry))
      ensures messages == old(messages)
    {
      if folder != "" {
        inputEntry := folder;
      }
    }

    /**
     * `run_ocr`: an empty entry is reported; otherwise the entry is split on
     * ';' and `process_files` runs (here to completion, in place of its thread).
     */
    method RunOcr(isDir: string -> bool, listing: Result<seq<string>>, isFile: string -> bool,
                  ocrError: string -> Option<string>)
      modifies this
      ensures inputEntry == old(inputEntry)
      ensures inputEntry == "" ==> messages == old(messages) + [NoInput]
      ensures inputEntry != "" ==>
        messages == old(messages) + ProcessRun(Split(inputEntry, ';'), isDir, listing, isFile, ocrError)
    {
      if inputEntry == "" {
        messages := messages + [NoInput];
        return;
      }
      var filePaths := Split(inputEntry, ';');
      ProcessFiles(filePaths, isDir, listing, isFile, ocrError);
    }

    /** `process_files`: every message it posts is appended, in order. */
    method ProcessFiles(filePaths: seq<string>, isDir: string -> bool, listing: Result<seq<string>>,
                        isFile: string -> bool, ocrError: string -> Option<string>)
      requires filePaths != []
      modifies this
      ensures inputEntry == old(inputEntry)
      ensures messages == old(messages) + ProcessRun(filePaths, isDir, listing, isFile, ocrError)
    {
      if isDir(filePaths[0]) {
        if listing.Err? {
          messages := messages + [Failed(listing.message)];
          return;
        }
        var pdfs := PdfNames(listing.value);
        if pdfs == [] {
          messages := messages + [NoPdfsInFolder];
          return;
        }
        ConvertFolder(filePaths[0], pdfs, ocrError);
      } else {
        ConvertFiles(filePaths, isFile, ocrError);
      }
    }

    /** The folder loop of `process_files`: each PDF of the listing, joined onto the folder. */
    method ConvertFolder(folder: string, pdfs: seq<string>, ocrError: string -> Option<string>)
      modifies this
      ensures inputEntry == old(inputEntry)
      ensures messages == old(messages) + RunJobs(FolderJobs(folder, pdfs), ocrError)
    {
      var posted := RunInOrder(FolderJobs(folder, pdfs), ocrError);
      messages := messages + posted;
    }

    /** The file loop of `process_files`: each stripped entry, converted or skipped. */
    method ConvertFiles(entries: seq<string>, isFile: string -> bool, ocrError: string -> Option<string>)
      modifies this
      ensures inputEntry == old(inputEntry)
      ensures messages == old(messages) + RunJobs(FileJobs(entries, isFile), ocrError)
    {
      var posted := RunInOrder(FileJobs(entries, isFile), ocrError);
      messages := messages + posted;
    }
  }
}
