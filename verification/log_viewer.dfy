/**
 * The log viewer: `refresh_logs` reads the operations log, optionally
 * filters its lines by keyword, level and date, and shows the result in a
 * read-only text widget; `clear_logs` empties the log and `auto_refresh`
 * re-applies the filters periodically.
 */
module LogViewer {
  import opened Wrappers
  import opened Strings

  /** Shown when the log file cannot be opened. */
  const NoLogFile := "No log file found"
  /** Shown in place of an empty text. */
  const NoMatches := "No matching entries"
  /** The level choice that lets every line through. */
  const AllLevels := "All"
  /** The prefix of the error dialog of `clear_logs`. */
  const ClearError := "Could not clear logs: "

  /**
   * The contents of the three filter fields. "Apply Filters" and the
   * periodic refresh pass the fields (the widget variables are always
   * truthy, so the filtering branch runs even when the fields are at their
   * defaults); "Refresh All" and the initial load pass none.
   */
  datatype Filters = Filters(keyword: string, level: string, date: string)

  /** The fields as the window first shows them. */
  const DefaultFilters := Filters("", AllLevels, "")

  /**
   * The guards of the filter loop, in order: a blank line is skipped; the
   * keyword is looked for in the lower-cased line; a level other than "All"
   * must occur in the line as written; a non-empty date must be the line's
   * first word.
   */
  predicate Keeps(f: Filters, line: string) {
    Strip(line) != "" &&
    Contains(Lower(line), Lower(f.keyword)) &&
    (f.level == AllLevels || Contains(line, f.level)) &&
    (f.date == "" || FirstWord(line) == Some(f.date))
  }

  /** The lines the filter loop keeps, in order. */
  function Kept(lines: seq<string>, f: Filters): (r: seq<string>)
    ensures |r| <= |lines|
    ensures forall l :: l in r <==> l in lines && Keeps(f, l)
  {
    if lines == [] then []
    else
      var last := lines[|lines| - 1];
      Kept(lines[..|lines| - 1], f) + (if Keeps(f, last) then [last] else [])
  }

  /** Each kept line followed by a newline, as the loop appends it to `filtered`. */
  function Terminated(lines: seq<string>): (r: seq<string>)
    ensures |r| == |lines|
    ensures forall i :: 0 <= i < |lines| ==> r[i] == lines[i] + "\n"
  {
    seq(|lines|, i requires 0 <= i < |lines| => lines[i] + "\n")
  }

  /** The text the filtering branch produces: `"".join(filtered)`. */
  function FilteredText(logs: string, f: Filters): string {
    Concat(Terminated(Kept(Split(logs, '\n'), f)))
  }

  /**
   * What the widget is given once the log has been read: the whole log
   * without filters, the filtered lines with them, and "No matching
   * entries" in place of an empty text.
   */
  function Shown(logs: string, filters: Option<Filters>): (r: string)
    ensures r != ""
    ensures filters.None? && logs != "" ==> r == logs
  {
    var text := match filters
      case None => logs
      case Some(f) => FilteredText(logs, f);
    if text == "" then NoMatches else text
  }

  /** What a refresh is meant to display: the log as filtered, or the missing-file notice. */
  function Display(logFile: Option<string>, filters: Option<Filters>): string {
    match logFile
    case None => NoLogFile
    case Some(logs) => Shown(logs, filters)
  }

  /** Every kept line leaves a non-empty entry, so the text is empty exactly when no line is kept. */
  lemma {:induction false} ConcatTerminatedEmpty(lines: seq<string>)
    ensures Concat(Terminated(lines)) == "" <==> lines == []
    ensures lines != [] ==> Concat(Terminated(lines))[|Concat(Terminated(lines))| - 1] == '\n'
  {
    if lines != [] {
      var t := Terminated(lines);
      assert t[..|t| - 1] == Terminated(lines[..|lines| - 1]);
      assert t[|t| - 1] == lines[|lines| - 1] + "\n";
    }
  }

  /**
   * With filters, "No matching entries" is shown exactly when no line
   * passes them; otherwise the text ends with the last kept line's newline.
   */
  lemma ShownNoMatches(logs: string, f: Filters)
    ensures Shown(logs, Some(f)) == NoMatches <==> Kept(Split(logs, '\n'), f) == []
    ensures Kept(Split(logs, '\n'), f) != [] ==> Shown(logs, Some(f)) == FilteredText(logs, f)
  {
    ConcatTerminatedEmpty(Kept(Split(logs, '\n'), f));
    assert NoMatches[|NoMatches| - 1] != '\n';
  }

  /** The kept lines come in the order of the log. */
  lemma {:induction false} KeptInOrder(lines: seq<string>, f: Filters)
    ensures SubsequenceOf(Kept(lines, f), lines)
  {
    if lines != [] {
      var init := lines[..|lines| - 1];
      KeptInOrder(init, f);
      var r := Kept(lines, f);
      assert lines[..|lines| - 1] == init;
      if Keeps(f, lines[|lines| - 1]) {
        assert r[..|r| - 1] == Kept(init, f);
      } else {
        assert r == Kept(init, f);
      }
    }
  }

  /**
   * With the fields at their defaults, the filter only drops the blank
   * lines; and a line that is not blank always has a first word, so the
   * date test never reaches its `IndexError` handler.
   */
  lemma DefaultFiltersDropBlankLines(line: string)
    ensures Keeps(DefaultFilters, line) <==> Strip(line) != ""
    ensures Strip(line) != "" ==> FirstWord(line).Some?
  {
    assert OccursAt(Lower(line), Lower(""), 0);
  }

  /** Lower-casing is idempotent on the ASCII letters it changes. */
  lemma LowerTwice(s: string)
    ensures Lower(Lower(s)) == Lower(s)
  {
    forall i | 0 <= i < |s|
      ensures Lower(Lower(s))[i] == Lower(s)[i]
    {
    }
  }

  /** The keyword test ignores case: a keyword and its lower-cased form keep the same lines. */
  lemma KeywordIgnoresCase(f: Filters, line: string)
    ensures Keeps(f, line) <==> Keeps(f.(keyword := Lower(f.keyword)), line)
  {
    LowerTwice(f.keyword);
  }

  /** The level test is case-sensitive: "error" does not let an "ERROR" line through. */
  lemma LevelIsCaseSensitive()
    ensures !Keeps(Filters("", "error", ""), "ERROR x")
  {
    var line := ['E', 'R', 'R', 'O', 'R', ' ', 'x'];
    assert line == "ERROR x";
    assert 'e' !in line;
    FirstCharAbsent(line, "error");
  }

  /** A pattern whose first character does not occur in `s` is not contained in it. */
  lemma FirstCharAbsent(s: string, pat: string)
    requires pat != [] && pat[0] !in s
    ensures !Contains(s, pat)
  {
    forall i | 0 <= i <= |s| - |pat|
      ensures !OccursAt(s, pat, i)
    {
      assert s[i] in s;
    }
  }

  /**
   * With only the level set, a level other than "All" keeps exactly the
   * non-blank lines that contain it as written.
   */
  lemma LevelMatchKept(level: string, line: string)
    requires level != AllLevels
    ensures Keeps(Filters("", level, ""), line) <==> Strip(line) != "" && Contains(line, level)
  {
    assert OccursAt(Lower(line), Lower(""), 0);
  }

  /** The `continue` guards of the filter loop, tried in order on one line. */
  method PassesFilters(f: Filters, line: string) returns (keep: bool)
    ensures keep <==> Keeps(f, line)
  {
    if Strip(line) == "" {
      return false;
    }
    if !Contains(Lower(line), Lower(f.keyword)) {
      return false;
    }
    if f.level != AllLevels && !Contains(line, f.level) {
      return false;
    }
    if f.date != "" {
      match FirstWord(line) {
        case None =>
          return false;
        case Some(word) =>
          if word != f.date {
            return false;
          }
      }
    }
    return true;
  }

  /** One more line of the log adds its entry when the filters keep it. */
  lemma KeptStep(lines: seq<string>, i: nat, f: Filters)
    requires i < |lines|
    ensures Terminated(Kept(lines[..i + 1], f)) ==
      Terminated(Kept(lines[..i], f)) + (if Keeps(f, lines[i]) then [lines[i] + "\n"] else [])
  {
    assert lines[..i + 1][..i] == lines[..i];
  }

  /** The filter loop of `refresh_logs`: each line checked in order, the kept ones appended with a newline. */
  method FilterLines(lines: seq<string>, f: Filters) returns (filtered: seq<string>)
    ensures filtered == Terminated(Kept(lines, f))
  {
    filtered := [];
    var i := 0;
    while i < |lines|
      invariant 0 <= i <= |lines|
      invariant filtered == Terminated(Kept(lines[..i], f))
    {
      var line := lines[i];
      KeptStep(lines, i, f);
      var keep := PassesFilters(f, line);
      if keep {
        filtered := filtered + [line + "\n"];
      }
      i := i + 1;
    }
    assert lines[..|lines|] == lines;
  }

  /** The filtering branch of `refresh_logs`: the log split on newlines, filtered, and joined. */
  method FilterLogs(logs: string, f: Filters) returns (text: string)
    ensures text == FilteredText(logs, f)
  {
    var filtered := FilterLines(Split(logs, '\n'), f);
    text := Concat(filtered);
  }

  /**
   * The log widget: its text, and whether it is disabled. A disabled Tk
   * text widget ignores deletions and insertions.
   */
  class LogText {
    var text: string
    var disabled: bool

    /** `view_logs`: a fresh, editable widget given its initial load (without filters). */
    constructor (logFile: Option<string>)
      ensures text == Display(logFile, None)
      ensures disabled <==> logFile.Some?
    {
      text := "";
      disabled := false;
      new;
      RefreshLogs(logFile, None);
    }

    /** `delete(1.0, END)` then `insert(END, s)`: no effect while the widget is disabled. */
    method Replace(s: string)
      modifies this
      ensures disabled == old(disabled)
      ensures text == (if disabled then old(text) else s)
    {
      if !disabled {
        text := s;
      }
    }

    /**
     * `refresh_logs` as written: the missing-file notice is written without
     * re-enabling the widget, so after any successful refresh (which leaves
     * the widget disabled) it is ignored and the old text stays.
     */
    method RefreshLogs(logFile: Option<string>, filters: Option<Filters>)
      modifies this
      ensures logFile.None? ==> disabled == old(disabled) && text == (if old(disabled) then old(text) else NoLogFile)
      ensures logFile.Some? ==> disabled && text == Shown(logFile.value, filters)
      ensures (text, disabled) == AfterRefresh(old(text), old(disabled), logFile, filters)
    {
      match logFile {
        case None =>
          Replace(NoLogFile);
        case Some(logs) =>
          var shown := logs;
          if filters.Some? {
            shown := FilterLogs(logs, filters.value);
          }
          disabled := false;
          Replace(if shown == "" then NoMatches else shown);
          disabled := true;
      }
    }

    /** `refresh_logs` with the widget enabled around every write, the missing-file notice included. */
    method RefreshLogsCorrected(logFile: Option<string>, filters: Option<Filters>)
      modifies this
      ensures disabled
      ensures text == Display(logFile, filters)
    {
      disabled := false;
      match logFile {
        case None =>
          Replace(NoLogFile);
        case Some(logs) =>
          var shown := logs;
          if filters.Some? {
            shown := FilterLogs(logs, filters.value);
          }
          Replace(if shown == "" then NoMatches else shown);
      }
      disabled := true;
    }

    /**
     * `auto_refresh`: while the window exists, the as-written refresh runs
     * with the filter fields, so a log removed after an earlier refresh
     * leaves the old entries on screen here too.
     */
    method AutoRefresh(windowExists: bool, logFile: Option<string>, filters: Filters)
      modifies this
      ensures windowExists ==> (text, disabled) == AfterRefresh(old(text), old(disabled), logFile, Some(filters))
      ensures windowExists && logFile.Some? ==> disabled && text == Shown(logFile.value, Some(filters))
      ensures !windowExists ==> text == old(text) && disabled == old(disabled)
    {
      if windowExists {
        RefreshLogs(logFile, Some(filters));
      }
    }

    /**
     * `clear_logs`: once confirmed, the log is overwritten with nothing and
     * reloaded without filters, which shows "No matching entries"; a failed
     * write is reported and changes nothing. Returns the log's new contents
     * and the error dialog's text.
     */
    method ClearLogs(confirmed: bool, logFile: Option<string>, writeError: Option<string>)
        returns (newLog: Option<string>, error: Option<string>)
      modifies this
      ensures confirmed && writeError.None? ==> newLog == Some("") && error.None? && disabled && text == NoMatches
      ensures confirmed && writeError.Some? ==>
        newLog == logFile && error == Some(ClearError + writeError.value) &&
        text == old(text) && disabled == old(disabled)
      ensures !confirmed ==> newLog == logFile && error.None? && text == old(text) && disabled == old(disabled)
    {
      newLog, error := logFile, None;
      if confirmed {
        match writeError {
          case Some(e) =>
            error := Some(ClearError + e);
          case None =>
            newLog := Some("");
            RefreshLogs(newLog, None);
        }
      }
    }
  }

  /**
   * The state `refresh_logs` as written leaves behind, given the widget's
   * text and state before it.
   */
  function AfterRefresh(text: string, disabled: bool, logFile: Option<string>, filters: Option<Filters>): (string, bool) {
    match logFile
    case None => (if disabled then text else NoLogFile, disabled)
    case Some(logs) => (Shown(logs, filters), true)
  }

  /**
   * Once a refresh has shown the filtered log, a later refresh that finds no
   * log file keeps showing the old entries instead of "No log file found".
   */
  lemma StaleEntriesAfterLogRemoved(logs: string, f: Filters, later: Option<Filters>)
    ensures var (text, disabled) := AfterRefresh("", false, Some(logs), Some(f));
      AfterRefresh(text, disabled, None, later).0 == Shown(logs, Some(f)) &&
      AfterRefresh(text, disabled, None, later).0 != Display(None, later)
  {
    var shown := Shown(logs, Some(f));
    ShownNoMatches(logs, f);
    if shown != NoMatches {
      ConcatTerminatedEmpty(Kept(Split(logs, '\n'), f));
      assert shown[|shown| - 1] == '\n';
      assert NoLogFile[|NoLogFile| - 1] != '\n';
    }
  }
}
