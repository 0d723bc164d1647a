/**
 * Model of gui/printing/print_manager.py: how `print_split_files` turns the
 * print dialog's choices into a list of files to print — the page-range
 * parser `_parse_page_range`, the bounds check `_validate_page_range`, the
 * odd/even filter `_apply_page_filter` and the checks in between — and how
 * its print loop counts what was sent.
 *
 * Message boxes become the reason a print is refused; the printer list,
 * file existence and the outcome of each print command are parameters.
 */
module PrintManager {
  import opened Wrappers
  import opened Strings

  // ----- page ranges -----

  /** Why `_parse_page_range` returns None (each reason has its own message box). */
  datatype RangeError = MissingCustomRange | ReversedRange | InvalidRange

  /** The parse result: a list of 0-based page indices, or None. */
  datatype PageRange = Indices(indices: seq<int>) | RangeRejected(reason: RangeError)

  /** What one comma-separated part adds: the indices lo .. hi-1, or an error. */
  datatype PartResult = Interval(lo: int, hi: int) | PartRejected(reason: RangeError)

  /**
   * The page set gathered so far, with bounds lo <= p < hi on its members
   * (used to list it in order), or the error that ended the parse.
   */
  datatype Collected = Collected(pages: set<int>, lo: int, hi: int) | Rejected(reason: RangeError)

  predicate StrictlyAscending(xs: seq<int>) {
    forall i, j :: 0 <= i < j < |xs| ==> xs[i] < xs[j]
  }

  /** Python's `set(range(lo, hi))`. */
  function RangeSet(lo: int, hi: int): (r: set<int>)
    ensures forall x :: x in r <==> lo <= x < hi
    decreases hi - lo
  {
    if lo >= hi then {} else {lo} + RangeSet(lo + 1, hi)
  }

  /**
   * The pieces of "a-b" split on '-': `int()` of each piece, then unpacking
   * into exactly two values; any failure there is a ValueError.
   */
  function RangePieces(pieces: seq<string>): (r: PartResult)
    ensures r.PartRejected? ==> r.reason != MissingCustomRange
    ensures r.Interval? ==> r.lo < r.hi
  {
    if |pieces| != 2 then PartRejected(InvalidRange)
    else
      match (ParseInt(pieces[0]), ParseInt(pieces[1]))
      case (Some(start), Some(end)) =>
        if start > end then PartRejected(ReversedRange) else Interval(start - 1, end)
      case _ => PartRejected(InvalidRange)
  }

  /** What one stripped part adds: "a-b" adds a-1 .. b-1, "n" adds n-1. */
  function PartPages(part: string): (r: PartResult)
    ensures r.PartRejected? ==> r.reason != MissingCustomRange
    ensures r.Interval? ==> r.lo < r.hi
  {
    if '-' in part then RangePieces(Split(part, '-'))
    else
      match ParseInt(part)
      case Some(n) => Interval(n - 1, n)
      case None => PartRejected(InvalidRange)
  }

  /** The result of each part, stripped. */
  function PartResults(parts: seq<string>): (r: seq<PartResult>)
    ensures |r| == |parts|
  {
    seq(|parts|, k requires 0 <= k < |parts| => PartPages(Strip(parts[k])))
  }

  /** The pages of the first `m` parts; the first bad part ends the parse. */
  function CollectParts(results: seq<PartResult>, m: nat): (c: Collected)
    requires m <= |results|
    ensures c.Collected? ==> forall x :: x in c.pages ==> c.lo <= x < c.hi
  {
    if m == 0 then Collected({}, 0, 0)
    else
      match CollectParts(results, m - 1)
      case Rejected(reason) => Rejected(reason)
      case Collected(pages, lo, hi) =>
        match results[m - 1]
        case PartRejected(reason) => Rejected(reason)
        case Interval(a, b) =>
          Collected(pages + RangeSet(a, b), if a < lo then a else lo, if b > hi then b else hi)
  }

  /** Python's `sorted` of the members of `s` within lo .. hi-1: ascending, each once. */
  function SortedWithin(s: set<int>, lo: int, hi: int): (r: seq<int>)
    ensures StrictlyAscending(r)
    ensures forall i :: 0 <= i < |r| ==> lo <= r[i] < hi
    ensures forall x :: x in r <==> x in s && lo <= x < hi
    decreases hi - lo
  {
    if lo >= hi then []
    else (if lo in s then [lo] else []) + SortedWithin(s, lo + 1, hi)
  }

  /** The indices 0 .. n-1 in order. */
  function AllIndices(n: nat): (r: seq<int>)
    ensures |r| == n && StrictlyAscending(r)
    ensures forall i :: 0 <= i < n ==> r[i] == i
  {
    seq(n, i requires 0 <= i < n => i)
  }

  /** What `_parse_page_range(page_range, custom_range)` returns, for `fileCount` files. */
  function PageRangeOf(pageRange: string, customRange: Option<string>, fileCount: nat): (r: PageRange)
    ensures r.Indices? ==> StrictlyAscending(r.indices)
    ensures pageRange == "all" ==> r == Indices(AllIndices(fileCount))
    ensures pageRange != "all" && (customRange.None? || customRange.value == "") ==> r == RangeRejected(MissingCustomRange)
    ensures pageRange != "all" && customRange.Some? && customRange.value != "" ==>
      var parts := Split(customRange.value, ',');
      var c := CollectParts(PartResults(parts), |parts|);
      && (r.Indices? <==> c.Collected?)
      && (r.Indices? ==> forall x :: x in r.indices <==> x in c.pages)
      && (r.RangeRejected? ==> r.reason == c.reason)
  {
    if pageRange == "all" then Indices(AllIndices(fileCount))
    else if customRange.None? || customRange.value == "" then RangeRejected(MissingCustomRange)
    else
      var parts := Split(customRange.value, ',');
      match CollectParts(PartResults(parts), |parts|)
      case Collected(pages, lo, hi) => Indices(SortedWithin(pages, lo, hi))
      case Rejected(reason) => RangeRejected(reason)
  }

  /**
   * `_parse_page_range`: "all" selects every file; otherwise the custom text
   * is split on commas and each stripped part adds its pages to a set, which
   * is returned sorted.
   */
  method ParsePageRange(pageRange: string, customRange: Option<string>, fileCount: nat) returns (r: PageRange)
    ensures r == PageRangeOf(pageRange, customRange, fileCount)
  {
    if pageRange == "all" {
      return Indices(AllIndices(fileCount));
    }
    if customRange.None? || customRange.value == "" {
      return RangeRejected(MissingCustomRange);
    }
    var parts := Split(customRange.value, ',');
    var c := CollectPages(parts);
    match c
    case Collected(pages, lo, hi) =>
      r := Indices(SortedWithin(pages, lo, hi));
    case Rejected(reason) =>
      r := RangeRejected(reason);
  }

  /** The loop of `_parse_page_range` over the comma-separated parts; the first bad part ends it. */
  method CollectPages(parts: seq<string>) returns (c: Collected)
    ensures c == CollectParts(PartResults(parts), |parts|)
  {
    // Parsing a part has no side effect, so the parts are parsed up front.
    var results := PartResults(parts);
    c := CollectResults(results);
  }

  /** The loop itself, over the parsed parts. */
  method CollectResults(results: seq<PartResult>) returns (c: Collected)
    ensures c == CollectParts(results, |results|)
  {
    c := Collected({}, 0, 0);
    for k := 0 to |results|
      invariant c.Collected? && c == CollectParts(results, k)
    {
      var added := results[k];
      if added.PartRejected? {
        c := Rejected(added.reason);
        RejectionPersists(results, k + 1, |results|);
        return;
      }
      CollectStep(results, k);
      c := Collected(c.pages + RangeSet(added.lo, added.hi),
        if added.lo < c.lo then added.lo else c.lo,
        if added.hi > c.hi then added.hi else c.hi);
    }
  }

  /** One more good part adds its interval to the set and widens the bounds. */
  lemma CollectStep(results: seq<PartResult>, k: nat)
    requires k < |results| && CollectParts(results, k).Collected? && results[k].Interval?
    ensures CollectParts(results, k + 1) ==
      var c, p := CollectParts(results, k), results[k];
      Collected(c.pages + RangeSet(p.lo, p.hi), if p.lo < c.lo then p.lo else c.lo, if p.hi > c.hi then p.hi else c.hi)
  {
  }

  /** Once a part is rejected, the parse stays rejected for the same reason. */
  lemma {:induction false} RejectionPersists(results: seq<PartResult>, k: nat, m: nat)
    requires k <= m <= |results|
    requires CollectParts(results, k).Rejected?
    ensures CollectParts(results, m) == CollectParts(results, k)
    decreases m - k
  {
    if k < m {
      RejectionPersists(results, k, m - 1);
    }
  }

  /** A parsed set holds exactly the indices some part contributes. */
  lemma {:induction false} CollectedMembers(results: seq<PartResult>, m: nat, x: int)
    requires m <= |results|
    requires CollectParts(results, m).Collected?
    ensures x in CollectParts(results, m).pages <==>
      exists k :: 0 <= k < m && results[k].Interval? && results[k].lo <= x < results[k].hi
  {
    if m > 0 {
      CollectedMembers(results, m - 1, x);
    }
  }

  /** Decimal numbers hold no '-'. */
  lemma NoDash(n: nat)
    ensures '-' !in NatToString(n)
  {
    var s := NatToString(n);
    forall k | 0 <= k < |s| ensures s[k] != '-' {
      assert IsDigit(s[k]);
    }
  }

  /** A single number n selects page index n - 1. */
  lemma SingleNumberPart(n: nat)
    ensures PartPages(NatToString(n)) == Interval(n - 1, n)
  {
    ParseIntOfNat(n);
    NoDash(n);
  }

  /** Splitting "a-b" on '-' gives the two numbers back. */
  lemma SplitDashed(a: nat, b: nat)
    ensures '-' in NatToString(a) + "-" + NatToString(b)
    ensures Split(NatToString(a) + "-" + NatToString(b), '-') == [NatToString(a), NatToString(b)]
  {
    var sa, sb := NatToString(a), NatToString(b);
    NoDash(a);
    NoDash(b);
    assert Join([sa, sb], "-") == sa + "-" + sb;
    SplitJoin([sa, sb], '-');
    assert (sa + "-" + sb)[|sa|] == '-';
  }

  /** "a-b" selects the indices a-1 .. b-1 when a <= b, and is refused as reversed otherwise. */
  lemma RangePart(a: nat, b: nat)
    ensures a <= b ==> PartPages(NatToString(a) + "-" + NatToString(b)) == Interval(a - 1, b)
    ensures a > b ==> PartPages(NatToString(a) + "-" + NatToString(b)) == PartRejected(ReversedRange)
  {
    var s := NatToString(a) + "-" + NatToString(b);
    SplitDashed(a, b);
    assert PartPages(s) == RangePieces([NatToString(a), NatToString(b)]);
    ParseIntOfNat(a);
    ParseIntOfNat(b);
    RangePiecesParsed(NatToString(a), NatToString(b), a, b);
  }

  /** Two pieces that parse as `a` and `b` make the range a-1 .. b-1, or are refused as reversed. */
  lemma RangePiecesParsed(x: string, y: string, a: int, b: int)
    requires ParseInt(x) == Some(a) && ParseInt(y) == Some(b)
    ensures a <= b ==> RangePieces([x, y]) == Interval(a - 1, b)
    ensures a > b ==> RangePieces([x, y]) == PartRejected(ReversedRange)
  {
    assert [x, y][0] == x && [x, y][1] == y;
  }

  /** Splitting "x-y-z" on '-' gives three pieces when none holds a '-'. */
  lemma SplitDashedTwice(x: string, y: string, z: string)
    requires '-' !in x && '-' !in y && '-' !in z
    ensures '-' in x + "-" + y + "-" + z
    ensures Split(x + "-" + y + "-" + z, '-') == [x, y, z]
  {
    assert [x, y, z][1..] == [y, z];
    assert Join([y, z], "-") == y + "-" + z;
    assert Join([x, y, z], "-") == x + "-" + y + "-" + z;
    SplitJoin([x, y, z], '-');
    assert (x + "-" + y + "-" + z)[|x|] == '-';
  }

  /** A part with more than one '-', such as "1-2-3", is not a valid range. */
  lemma ExtraDashRejected(a: nat, b: nat, c: nat)
    ensures PartPages(NatToString(a) + "-" + NatToString(b) + "-" + NatToString(c)) == PartRejected(InvalidRange)
  {
    NoDash(a);
    NoDash(b);
    NoDash(c);
    SplitDashedTwice(NatToString(a), NatToString(b), NatToString(c));
  }


  /** `_validate_page_range`: a list (not None) whose every index names an existing file. */
  predicate ValidPageRange(r: PageRange, fileCount: nat) {
    r.Indices? && forall i :: 0 <= i < |r.indices| ==> 0 <= r.indices[i] < fileCount
  }

  /**
   * Because a parsed range is ascending, checking its two ends is enough: it
   * is valid exactly when its first index is at least 0 and its last is below
   * the file count.
   */
  lemma ValidByEnds(pageRange: string, customRange: Option<string>, fileCount: nat)
    ensures var r := PageRangeOf(pageRange, customRange, fileCount);
      r.Indices? && r.indices != [] ==>
        (ValidPageRange(r, fileCount) <==> 0 <= r.indices[0] && r.indices[|r.indices| - 1] < fileCount)
  {
    var r := PageRangeOf(pageRange, customRange, fileCount);
    if r.Indices? && r.indices != [] {
      assert StrictlyAscending(r.indices);
      EndsDecideValidity(r, fileCount);
    }
  }

  /** For an ascending range, validity is decided by its two ends. */
  lemma EndsDecideValidity(r: PageRange, fileCount: nat)
    requires r.Indices? && r.indices != [] && StrictlyAscending(r.indices)
    ensures ValidPageRange(r, fileCount) <==> 0 <= r.indices[0] && r.indices[|r.indices| - 1] < fileCount
  {
    AscendingWithinEnds(r.indices, fileCount);
  }

  /** "all" is always a valid range. */
  lemma AllRangeValid(customRange: Option<string>, fileCount: nat)
    ensures ValidPageRange(PageRangeOf("all", customRange, fileCount), fileCount)
  {
    AllIndicesInBounds(fileCount);
  }

  /** An ascending sequence lies within 0 .. n-1 exactly when its two ends do. */
  lemma AscendingWithinEnds(xs: seq<int>, n: nat)
    requires StrictlyAscending(xs) && xs != []
    ensures (forall i :: 0 <= i < |xs| ==> 0 <= xs[i] < n) <==> 0 <= xs[0] && xs[|xs| - 1] < n
  {
    if 0 <= xs[0] && xs[|xs| - 1] < n {
      forall i | 0 <= i < |xs| ensures 0 <= xs[i] < n {
        if i > 0 {
          assert xs[0] < xs[i];
        }
        if i < |xs| - 1 {
          assert xs[i] < xs[|xs| - 1];
        }
      }
    }
  }

  /** Every index of "all" is below the file count. */
  lemma AllIndicesInBounds(fileCount: nat)
    ensures ValidPageRange(Indices(AllIndices(fileCount)), fileCount)
  {
  }

  // ----- the odd/even filter -----

  /** Whether index `i` passes the filter: "odd" pages are the even 0-based indices. */
  predicate Keeps(pageFilter: string, i: int) {
    pageFilter == "all" || (pageFilter == "odd" && i % 2 == 0) || (pageFilter == "even" && i % 2 == 1)
  }

  predicate InBounds(indices: seq<int>, fileCount: nat) {
    forall k :: 0 <= k < |indices| ==> 0 <= indices[k] < fileCount
  }

  /** The files of the first `m` indices that pass the filter, in index order. */
  function Selected(files: seq<string>, indices: seq<int>, pageFilter: string, m: nat): seq<string>
    requires m <= |indices| && InBounds(indices, |files|)
  {
    if m == 0 then []
    else
      Selected(files, indices, pageFilter, m - 1)
      + (if Keeps(pageFilter, indices[m - 1]) then [files[indices[m - 1]]] else [])
  }

  /** `_apply_page_filter(page_range, page_filter)` on an already validated range. */
  method ApplyPageFilter(files: seq<string>, indices: seq<int>, pageFilter: string) returns (filtered: seq<string>)
    requires InBounds(indices, |files|)
    ensures filtered == Selected(files, indices, pageFilter, |indices|)
  {
    if pageFilter == "all" {
      filtered := seq(|indices|, k requires 0 <= k < |indices| => files[indices[k]]);
      AllFilterMaps(files, indices, |indices|);
      return;
    }
    filtered := [];
    for k := 0 to |indices|
      invariant filtered == Selected(files, indices, pageFilter, k)
    {
      var i := indices[k];
      if (pageFilter == "odd" && i % 2 == 0) || (pageFilter == "even" && i % 2 == 1) {
        filtered := filtered + [files[i]];
      }
    }
  }

  /** "all" maps every index to its file, in order. */
  lemma {:induction false} AllFilterMaps(files: seq<string>, indices: seq<int>, m: nat)
    requires m <= |indices| && InBounds(indices, |files|)
    ensures Selected(files, indices, "all", m) == seq(m, k requires 0 <= k < m => files[indices[k]])
  {
    if m > 0 {
      AllFilterMaps(files, indices, m - 1);
    }
  }

  /** An unknown filter value selects nothing. */
  lemma {:induction false} UnknownFilterSelectsNothing(files: seq<string>, indices: seq<int>, pageFilter: string, m: nat)
    requires m <= |indices| && InBounds(indices, |files|)
    requires pageFilter != "all" && pageFilter != "odd" && pageFilter != "even"
    ensures Selected(files, indices, pageFilter, m) == []
  {
    if m > 0 {
      UnknownFilterSelectsNothing(files, indices, pageFilter, m - 1);
    }
  }

  /** "odd" and "even" split the selected pages between them: together they have as many as "all". */
  lemma {:induction false} OddEvenPartition(files: seq<string>, indices: seq<int>, m: nat)
    requires m <= |indices| && InBounds(indices, |files|)
    ensures |Selected(files, indices, "odd", m)| + |Selected(files, indices, "even", m)|
      == |Selected(files, indices, "all", m)| == m
  {
    if m > 0 {
      OddEvenPartition(files, indices, m - 1);
    }
  }

  /** Every filter result is a subsequence of the "all" result. */
  lemma {:induction false} FilterIsSubsequence(files: seq<string>, indices: seq<int>, pageFilter: string, m: nat)
    requires m <= |indices| && InBounds(indices, |files|)
    ensures SubsequenceOf(Selected(files, indices, pageFilter, m), Selected(files, indices, "all", m))
  {
    if m > 0 {
      FilterIsSubsequence(files, indices, pageFilter, m - 1);
      var a := Selected(files, indices, pageFilter, m);
      var b := Selected(files, indices, "all", m);
      var a', b' := Selected(files, indices, pageFilter, m - 1), Selected(files, indices, "all", m - 1);
      var f := files[indices[m - 1]];
      assert b == b' + [f];
      assert b[..|b| - 1] == b';
      if Keeps(pageFilter, indices[m - 1]) {
        assert a == a' + [f];
        assert a[..|a| - 1] == a' && a[|a| - 1] == b[|b| - 1];
      } else {
        assert a == a';
      }
    }
  }

  // ----- the print flow -----

  /** Why `print_split_files` prints nothing (and reopens the dialog where the source does). */
  datatype Refusal =
    | NoFiles                   // "No split files available for printing"
    | NoPrinter                 // no printer selected: the dialog reopens
    | PrinterOffline            // the printer is not among the available ones
    | BadRange(reason: RangeError)
    | OutOfBounds               // "Page range exceeds the number of available files."
    | NoMatchingPages           // "No pages match the selected filter"
    | LargeJobDeclined          // more than 50 pages and the user said no

  datatype PrintPlan = Refused(why: Refusal) | PrintJob(files: seq<string>)

  const LargeJob := 50

  /** The checks of `print_split_files` before anything is printed, in the source's order. */
  function PlanPrint(files: seq<string>, printer: string, available: set<string>, pageRange: string,
                     customRange: Option<string>, pageFilter: string, confirmLarge: bool): (plan: PrintPlan)
    ensures plan.PrintJob? <==>
      && files != [] && printer != "" && printer in available
      && ValidPageRange(PageRangeOf(pageRange, customRange, |files|), |files|)
      && var job := Selected(files, PageRangeOf(pageRange, customRange, |files|).indices, pageFilter,
                             |PageRangeOf(pageRange, customRange, |files|).indices|);
         job != [] && (|job| > LargeJob ==> confirmLarge)
    ensures plan.PrintJob? ==> plan.files == Selected(files, PageRangeOf(pageRange, customRange, |files|).indices,
                                                      pageFilter, |PageRangeOf(pageRange, customRange, |files|).indices|)
  {
    if files == [] then Refused(NoFiles)
    else if printer == "" then Refused(NoPrinter)
    else if printer !in available then Refused(PrinterOffline)
    else
      var range := PageRangeOf(pageRange, customRange, |files|);
      if range.RangeRejected? then Refused(BadRange(range.reason))
      else if !ValidPageRange(range, |files|) then Refused(OutOfBounds)
      else
        var job := Selected(files, range.indices, pageFilter, |range.indices|);
        if job == [] then Refused(NoMatchingPages)
        else if |job| > LargeJob && !confirmLarge then Refused(LargeJobDeclined)
        else PrintJob(job)
  }

  /**
   * One log line of the print loop. A line names a file by its path; the
   * message shows that path's base name.
   */
  datatype PrintLog =
    | MissingFile(file: string)                 // the file no longer exists
    | SentTo(file: string, printer: string)     // the print command succeeded
    | PrintFailed(file: string, error: string)  // the print command raised

  datatype PrintTally = PrintTally(printed: nat, log: seq<PrintLog>)

  /**
   * One pass of the corrected print loop for `file`: a missing file is logged
   * and skipped; otherwise the print command either succeeds (None) or raises
   * with a message, and the failure is logged under that same file.
   */
  function PrintStep(t: PrintTally, file: string, present: bool, outcome: Option<string>, printer: string): (t': PrintTally)
    ensures |t'.log| == |t.log| + 1
    ensures forall k :: 0 <= k < |t.log| ==> t'.log[k] == t.log[k]
    ensures t'.log[|t.log|].file == file
    ensures t'.log[|t.log|].SentTo? <==> present && outcome.None?
    ensures t'.printed == t.printed + (if present && outcome.None? then 1 else 0)
  {
    if !present then PrintTally(t.printed, t.log + [MissingFile(file)])
    else if outcome.None? then PrintTally(t.printed + 1, t.log + [SentTo(file, printer)])
    else PrintTally(t.printed, t.log + [PrintFailed(file, outcome.value)])
  }

  /**
   * The corrected print loop over the first `m` files. `present[i]` is whether file i
   * exists; `outcomes[i]` is None when its print command succeeds, Some(e)
   * when it raises with message e.
   */
  function PrintRun(files: seq<string>, present: seq<bool>, outcomes: seq<Option<string>>, printer: string, m: nat): PrintTally
    requires m <= |files| == |present| == |outcomes|
  {
    if m == 0 then PrintTally(0, [])
    else PrintStep(PrintRun(files, present, outcomes, printer, m - 1), files[m - 1], present[m - 1], outcomes[m - 1], printer)
  }

  /** The corrected loop of `print_split_files`: failures are reported under the failing file. */
  method PrintFilesCorrected(files: seq<string>, present: seq<bool>, outcomes: seq<Option<string>>, printer: string)
    returns (printed: nat, log: seq<PrintLog>)
    requires |files| == |present| == |outcomes|
    ensures PrintTally(printed, log) == PrintRun(files, present, outcomes, printer, |files|)
  {
    printed, log := 0, [];
    for k := 0 to |files|
      invariant PrintTally(printed, log) == PrintRun(files, present, outcomes, printer, k)
    {
      var file := files[k];
      if !present[k] {
        log := log + [MissingFile(file)];
        continue;
      }
      if outcomes[k].None? {
        printed := printed + 1;
        log := log + [SentTo(file, printer)];
      } else {
        log := log + [PrintFailed(file, outcomes[k].value)];
      }
    }
  }

  /**
   * The loop's log: one line per file, in order, naming that file, and a
   * "sent" line exactly for the files that exist and print.
   */
  lemma {:induction false} PrintRunLog(files: seq<string>, present: seq<bool>, outcomes: seq<Option<string>>,
                                       printer: string, m: nat)
    requires m <= |files| == |present| == |outcomes|
    ensures var t := PrintRun(files, present, outcomes, printer, m);
      && |t.log| == m
      && (forall k :: 0 <= k < m ==> t.log[k].file == files[k])
      && (forall k :: 0 <= k < m ==> (t.log[k].SentTo? <==> present[k] && outcomes[k].None?))
  {
    if m > 0 {
      PrintRunLog(files, present, outcomes, printer, m - 1);
    }
  }

  /**
   * The printed count is the number of "sent" lines, so the summary's
   * "Errors" (selected minus printed) counts exactly the missing and failed
   * files.
   */
  lemma {:induction false} PrintRunCounts(files: seq<string>, present: seq<bool>, outcomes: seq<Option<string>>,
                                          printer: string, m: nat)
    requires m <= |files| == |present| == |outcomes|
    ensures var t := PrintRun(files, present, outcomes, printer, m);
      && t.printed == SentCount(t.log) <= m
      && m - t.printed == |t.log| - SentCount(t.log)
  {
    if m > 0 {
      PrintRunCounts(files, present, outcomes, printer, m - 1);
      PrintRunLog(files, present, outcomes, printer, m);
      var t := PrintRun(files, present, outcomes, printer, m - 1);
      var t' := PrintRun(files, present, outcomes, printer, m);
      SentCountPrefix(t'.log, |t.log|);
    }
  }

  /** The number of "sent" lines in a log. */
  function SentCount(log: seq<PrintLog>): (n: nat)
    ensures n <= |log|
  {
    if log == [] then 0 else SentCount(log[..|log| - 1]) + (if log[|log| - 1].SentTo? then 1 else 0)
  }

  lemma SentCountPrefix(log: seq<PrintLog>, n: nat)
    requires n + 1 == |log|
    ensures SentCount(log) == SentCount(log[..n]) + (if log[n].SentTo? then 1 else 0)
  {
  }

  /** The summary `print_split_files` shows once the loop is over. */
  datatype PrintSummary = PrintSummary(printer: string, selected: nat, printed: nat, errors: int,
                                       collate: bool, duplex: bool)

  /**
   * What `print_split_files` ends with: a refusal, a finished loop with its
   * log and summary, or the UnboundLocalError of the loop as written, which
   * propagates after the lines logged so far and shows no summary.
   */
  datatype PrintOutcome =
    | NotPrinted(why: Refusal)
    | Printed(log: seq<PrintLog>, summary: PrintSummary)
    | Crashed(log: seq<PrintLog>)

  /** The checks of `print_split_files`, in the source's order, up to the job to print. */
  method CheckPrint(files: seq<string>, printer: string, available: set<string>, pageRange: string,
                    customRange: Option<string>, pageFilter: string, confirmLarge: bool)
    returns (plan: PrintPlan)
    ensures plan == PlanPrint(files, printer, available, pageRange, customRange, pageFilter, confirmLarge)
  {
    if files == [] {
      return Refused(NoFiles);
    }
    if printer == "" {
      return Refused(NoPrinter);
    }
    if printer !in available {
      return Refused(PrinterOffline);
    }
    var range := ParsePageRange(pageRange, customRange, |files|);
    if range.RangeRejected? {
      return Refused(BadRange(range.reason));
    }
    if !ValidPageRange(range, |files|) {
      return Refused(OutOfBounds);
    }
    var job := ApplyPageFilter(files, range.indices, pageFilter);
    if job == [] {
      return Refused(NoMatchingPages);
    }
    if |job| > LargeJob && !confirmLarge {
      return Refused(LargeJobDeclined);
    }
    plan := PrintJob(job);
  }

  /**
   * `print_split_files` as written: the checks, then the print loop, whose
   * failure message names the variable `filename`; a failure before any
   * success raises, and otherwise the summary is shown.
   */
  method PrintSplitFiles(files: seq<string>, printer: string, available: set<string>, pageRange: string,
                         customRange: Option<string>, pageFilter: string, confirmLarge: bool,
                         collate: bool, duplex: bool,
                         present: string -> bool, outcome: string -> Option<string>)
    returns (result: PrintOutcome)
    ensures var plan := PlanPrint(files, printer, available, pageRange, customRange, pageFilter, confirmLarge);
      && (plan.Refused? ==> result == NotPrinted(plan.why))
      && (plan.PrintJob? ==>
            var job := plan.files;
            var t := PrintRunAsWritten(job, seq(|job|, k requires 0 <= k < |job| => present(job[k])),
                                       seq(|job|, k requires 0 <= k < |job| => outcome(job[k])), printer, |job|);
            result == if t.crashed then Crashed(t.log)
                      else Printed(t.log, PrintSummary(printer, |job|, t.printed, |job| - t.printed, collate, duplex)))
  {
    var plan := CheckPrint(files, printer, available, pageRange, customRange, pageFilter, confirmLarge);
    if plan.Refused? {
      return NotPrinted(plan.why);
    }
    var job := plan.files;
    var printed, log, crashed := PrintFilesAsWritten(job, seq(|job|, k requires 0 <= k < |job| => present(job[k])),
                                                     seq(|job|, k requires 0 <= k < |job| => outcome(job[k])), printer);
    if crashed {
      result := Crashed(log);
    } else {
      result := Printed(log, PrintSummary(printer, |job|, printed, |job| - printed, collate, duplex));
    }
  }

  /**
   * `print_split_files` with the failure message naming the failing file:
   * the loop always finishes and the summary is always shown.
   */
  method PrintSplitFilesCorrected(files: seq<string>, printer: string, available: set<string>, pageRange: string,
                                  customRange: Option<string>, pageFilter: string, confirmLarge: bool,
                                  collate: bool, duplex: bool,
                                  present: string -> bool, outcome: string -> Option<string>)
    returns (result: PrintOutcome)
    ensures var plan := PlanPrint(files, printer, available, pageRange, customRange, pageFilter, confirmLarge);
      && (plan.Refused? ==> result == NotPrinted(plan.why))
      && (plan.PrintJob? ==>
            var job := plan.files;
            var t := PrintRun(job, seq(|job|, k requires 0 <= k < |job| => present(job[k])),
                              seq(|job|, k requires 0 <= k < |job| => outcome(job[k])), printer, |job|);
            result == Printed(t.log, PrintSummary(printer, |job|, t.printed, |job| - t.printed, collate, duplex)))
  {
    var plan := CheckPrint(files, printer, available, pageRange, customRange, pageFilter, confirmLarge);
    if plan.Refused? {
      return NotPrinted(plan.why);
    }
    var job := plan.files;
    var printed, log := PrintFilesCorrected(job, seq(|job|, k requires 0 <= k < |job| => present(job[k])),
                                            seq(|job|, k requires 0 <= k < |job| => outcome(job[k])), printer);
    result := Printed(log, PrintSummary(printer, |job|, printed, |job| - printed, collate, duplex));
  }

  // ----- the print loop as written -----

  /**
   * The print loop as the source writes it: the failure message uses the
   * variable `filename`, which only a successful print assigns. `lastPrinted`
   * is that variable (None while unbound); `crashed` is the UnboundLocalError
   * raised when a print fails before any print succeeded, which ends
   * `print_split_files` without a summary.
   */
  datatype AsWrittenTally = AsWrittenTally(printed: nat, log: seq<PrintLog>, lastPrinted: Option<string>, crashed: bool)

  function AsWrittenStep(t: AsWrittenTally, file: string, present: bool, outcome: Option<string>, printer: string): AsWrittenTally
  {
    if t.crashed then t
    else if !present then t.(log := t.log + [MissingFile(file)])
    else if outcome.None? then AsWrittenTally(t.printed + 1, t.log + [SentTo(file, printer)], Some(file), false)
    else if t.lastPrinted.None? then t.(crashed := true)
    else t.(log := t.log + [PrintFailed(t.lastPrinted.value, outcome.value)])
  }

  function PrintRunAsWritten(files: seq<string>, present: seq<bool>, outcomes: seq<Option<string>>, printer: string, m: nat): AsWrittenTally
    requires m <= |files| == |present| == |outcomes|
  {
    if m == 0 then AsWrittenTally(0, [], None, false)
    else AsWrittenStep(PrintRunAsWritten(files, present, outcomes, printer, m - 1), files[m - 1], present[m - 1], outcomes[m - 1], printer)
  }

  /** Once the loop as written has raised, later files change nothing. */
  lemma {:induction false} AsWrittenCrashFinal(files: seq<string>, present: seq<bool>, outcomes: seq<Option<string>>,
                                               printer: string, m: nat, n: nat)
    requires m <= n <= |files| == |present| == |outcomes|
    requires PrintRunAsWritten(files, present, outcomes, printer, m).crashed
    ensures PrintRunAsWritten(files, present, outcomes, printer, n) == PrintRunAsWritten(files, present, outcomes, printer, m)
    decreases n
  {
    if n > m {
      AsWrittenCrashFinal(files, present, outcomes, printer, m, n - 1);
    }
  }

  /**
   * The loop of `print_split_files` as written: `filename` stands for the
   * last file printed (None while unbound), and a failure before any success
   * raises out of the loop.
   */
  method PrintFilesAsWritten(files: seq<string>, present: seq<bool>, outcomes: seq<Option<string>>, printer: string)
    returns (printed: nat, log: seq<PrintLog>, crashed: bool)
    requires |files| == |present| == |outcomes|
    ensures var t := PrintRunAsWritten(files, present, outcomes, printer, |files|);
      printed == t.printed && log == t.log && crashed == t.crashed
  {
    printed, log, crashed := 0, [], false;
    var filename: Option<string> := None;
    for k := 0 to |files|
      invariant AsWrittenTally(printed, log, filename, false) == PrintRunAsWritten(files, present, outcomes, printer, k)
    {
      var file := files[k];
      if !present[k] {
        log := log + [MissingFile(file)];
        continue;
      }
      if outcomes[k].None? {
        printed := printed + 1;
        filename := Some(file);
        log := log + [SentTo(file, printer)];
      } else if filename.None? {
        crashed := true;
        AsWrittenCrashFinal(files, present, outcomes, printer, k + 1, |files|);
        return;
      } else {
        log := log + [PrintFailed(filename.value, outcomes[k].value)];
      }
    }
  }

  /** Some file among the first `k` exists and prints. */
  predicate SentBefore(present: seq<bool>, outcomes: seq<Option<string>>, k: nat)
    requires k <= |present| == |outcomes|
  {
    exists j :: 0 <= j < k && present[j] && outcomes[j].None?
  }

  /**
   * The loop as written raises exactly when some existing file fails to
   * print before any file has printed; until then `filename` is bound
   * exactly when some file has printed.
   */
  lemma {:induction false} AsWrittenCrash(files: seq<string>, present: seq<bool>, outcomes: seq<Option<string>>,
                                          printer: string, m: nat)
    requires m <= |files| == |present| == |outcomes|
    ensures PrintRunAsWritten(files, present, outcomes, printer, m).crashed <==>
      exists k :: 0 <= k < m && present[k] && outcomes[k].Some? && !SentBefore(present, outcomes, k)
    ensures !PrintRunAsWritten(files, present, outcomes, printer, m).crashed ==>
      (PrintRunAsWritten(files, present, outcomes, printer, m).lastPrinted.Some? <==> SentBefore(present, outcomes, m))
  {
    if m > 0 {
      AsWrittenCrash(files, present, outcomes, printer, m - 1);
      var t := PrintRunAsWritten(files, present, outcomes, printer, m - 1);
      if !t.crashed && present[m - 1] && outcomes[m - 1].None? {
        assert SentBefore(present, outcomes, m) by {
          assert 0 <= m - 1 < m && present[m - 1] && outcomes[m - 1].None?;
        }
      }
      if t.crashed {
        var k :| 0 <= k < m - 1 && present[k] && outcomes[k].Some? && !SentBefore(present, outcomes, k);
        assert 0 <= k < m && present[k] && outcomes[k].Some? && !SentBefore(present, outcomes, k);
      }
    }
  }

  /**
   * Until it raises, the loop as written logs one line per file, in order,
   * and a "sent" line exactly for the files that exist and print.
   */
  lemma {:induction false} AsWrittenLog(files: seq<string>, present: seq<bool>, outcomes: seq<Option<string>>,
                                        printer: string, m: nat)
    requires m <= |files| == |present| == |outcomes|
    ensures var t := PrintRunAsWritten(files, present, outcomes, printer, m);
      !t.crashed ==> |t.log| == m && forall k :: 0 <= k < m ==> (t.log[k].SentTo? <==> present[k] && outcomes[k].None?)
  {
    if m > 0 {
      AsWrittenLog(files, present, outcomes, printer, m - 1);
    }
  }

  /**
   * The loop as written counts exactly its "sent" lines, so the summary's
   * "Errors" counts the other lines.
   */
  lemma {:induction false} AsWrittenCounts(files: seq<string>, present: seq<bool>, outcomes: seq<Option<string>>,
                                           printer: string, m: nat)
    requires m <= |files| == |present| == |outcomes|
    ensures var t := PrintRunAsWritten(files, present, outcomes, printer, m);
      t.printed == SentCount(t.log) <= |t.log| <= m
  {
    if m > 0 {
      AsWrittenCounts(files, present, outcomes, printer, m - 1);
      var t := PrintRunAsWritten(files, present, outcomes, printer, m - 1);
      var t' := PrintRunAsWritten(files, present, outcomes, printer, m);
      if t'.log != t.log {
        assert t'.log == t.log + [t'.log[|t.log|]];
        SentCountPrefix(t'.log, |t.log|);
        assert t'.log[..|t.log|] == t.log;
      }
    }
  }

  /**
   * A failure after a success is reported under the file printed before it;
   * a failure before any success raises instead of being logged. The
   * corrected loop names the failing file.
   */
  lemma PrintFailureMisreported(a: string, b: string, printer: string, e: string)
    requires a != b
    ensures PrintRunAsWritten([a, b], [true, true], [None, Some(e)], printer, 2).log == [SentTo(a, printer), PrintFailed(a, e)]
    ensures PrintRun([a, b], [true, true], [None, Some(e)], printer, 2).log == [SentTo(a, printer), PrintFailed(b, e)]
    ensures PrintRunAsWritten([a, b], [true, true], [None, Some(e)], printer, 2).log
      != PrintRun([a, b], [true, true], [None, Some(e)], printer, 2).log
    ensures PrintRunAsWritten([b], [true], [Some(e)], printer, 1).crashed
    ensures PrintRun([b], [true], [Some(e)], printer, 1).log == [PrintFailed(b, e)]
  {
    var files, present, outcomes := [a, b], [true, true], [None, Some(e)];
    assert files[0] == a && files[1] == b && present[0] && present[1] && outcomes[0] == None && outcomes[1] == Some(e);
    var w0 := PrintRunAsWritten(files, present, outcomes, printer, 0);
    var w1 := PrintRunAsWritten(files, present, outcomes, printer, 1);
    assert w1 == AsWrittenStep(w0, a, true, None, printer);
    assert w1 == AsWrittenTally(1, [SentTo(a, printer)], Some(a), false);
    var t0 := PrintRun(files, present, outcomes, printer, 0);
    var t1 := PrintRun(files, present, outcomes, printer, 1);
    assert t1 == PrintStep(t0, a, true, None, printer);
    assert t1 == PrintTally(1, [SentTo(a, printer)]);
    assert [SentTo(a, printer), PrintFailed(a, e)][1] != [SentTo(a, printer), PrintFailed(b, e)][1];
  }

  /** Where no print command fails, the loop as written and the corrected loop agree. */
  lemma {:induction false} AsWrittenAgreesWithoutFailures(files: seq<string>, present: seq<bool>, outcomes: seq<Option<string>>,
                                                          printer: string, m: nat)
    requires m <= |files| == |present| == |outcomes|
    requires forall k :: 0 <= k < m ==> outcomes[k].None?
    ensures var w, t := PrintRunAsWritten(files, present, outcomes, printer, m), PrintRun(files, present, outcomes, printer, m);
      !w.crashed && w.log == t.log && w.printed == t.printed
  {
    if m > 0 {
      AsWrittenAgreesWithoutFailures(files, present, outcomes, printer, m - 1);
    }
  }
}
