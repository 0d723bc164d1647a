/**
 * Model of logic/compression.py: the recursive search for PDF files and the
 * decisions `compress_pdf` takes around the PDF library (input checks, the
 * save settings chosen for a compression level, the result it reports and
 * the reduction ratio it logs). The library itself is an opaque parameter.
 */
module Compression {
  import opened Wrappers
  import opened Strings
  import Paths

  /** One directory visited by `os.walk`: its path and the names of the files directly in it. */
  datatype WalkStep = WalkStep(root: string, files: seq<string>)

  /** The suffix test of `find_pdfs`: the lower-cased name ends in ".pdf". */
  predicate IsPdfName(name: string) {
    EndsWith(Lower(name), ".pdf")
  }

  /** The PDF paths among the first `j` files of one walk step, in listing order. */
  function StepPdfs(step: WalkStep, j: nat): seq<string>
    requires j <= |step.files|
  {
    if j == 0 then []
    else
      var name := step.files[j - 1];
      StepPdfs(step, j - 1) + (if IsPdfName(name) then [Paths.Join(step.root, name)] else [])
  }

  /** The PDF paths of the first `i` walk steps, in walk order. */
  function WalkPdfs(walk: seq<WalkStep>, i: nat): seq<string>
    requires i <= |walk|
  {
    if i == 0 then [] else WalkPdfs(walk, i - 1) + StepPdfs(walk[i - 1], |walk[i - 1].files|)
  }

  /** A path is found exactly when it joins a walked directory with one of its PDF names. */
  predicate FoundIn(walk: seq<WalkStep>, i: nat, p: string)
    requires i <= |walk|
  {
    exists s, j :: 0 <= s < i && 0 <= j < |walk[s].files| && IsPdfName(walk[s].files[j])
      && p == Paths.Join(walk[s].root, walk[s].files[j])
  }

  /**
   * `find_pdfs`: walks every directory and appends, in walk order, the joined
   * path of each file whose lower-cased name ends in ".pdf".
   */
  method FindPdfs(walk: seq<WalkStep>) returns (pdfFiles: seq<string>)
    ensures pdfFiles == WalkPdfs(walk, |walk|)
    ensures forall p :: p in pdfFiles <==> FoundIn(walk, |walk|, p)
  {
    pdfFiles := [];
    var i := 0;
    while i < |walk|
      invariant 0 <= i <= |walk|
      invariant pdfFiles == WalkPdfs(walk, i)
    {
      var j := 0;
      while j < |walk[i].files|
        invariant 0 <= j <= |walk[i].files|
        invariant pdfFiles == WalkPdfs(walk, i) + StepPdfs(walk[i], j)
      {
        var file := walk[i].files[j];
        if IsPdfName(file) {
          pdfFiles := pdfFiles + [Paths.Join(walk[i].root, file)];
        }
        j := j + 1;
      }
      i := i + 1;
    }
    WalkPdfsMembers(walk, |walk|);
  }

  lemma {:induction false} StepPdfsMembers(step: WalkStep, j: nat, p: string)
    requires j <= |step.files|
    ensures p in StepPdfs(step, j) <==> exists k :: 0 <= k < j && PdfAt(step, k, p)
  {
    if j > 0 {
      StepPdfsMembers(step, j - 1, p);
      var added := if IsPdfName(step.files[j - 1]) then [Paths.Join(step.root, step.files[j - 1])] else [];
      assert StepPdfs(step, j) == StepPdfs(step, j - 1) + added;
      assert p in added <==> PdfAt(step, j - 1, p);
      assert (exists k :: 0 <= k < j && PdfAt(step, k, p))
        <==> (exists k :: 0 <= k < j - 1 && PdfAt(step, k, p)) || PdfAt(step, j - 1, p);
    }
  }

  /** File `k` of the step is a PDF whose path is `p`. */
  predicate PdfAt(step: WalkStep, k: nat, p: string)
    requires k < |step.files|
  {
    IsPdfName(step.files[k]) && p == Paths.Join(step.root, step.files[k])
  }

  /** Membership in the found list, file by file. */
  lemma {:induction false} WalkPdfsMembers(walk: seq<WalkStep>, i: nat)
    requires i <= |walk|
    ensures forall p :: p in WalkPdfs(walk, i) <==> FoundIn(walk, i, p)
  {
    if i > 0 {
      WalkPdfsMembers(walk, i - 1);
      forall p ensures p in WalkPdfs(walk, i) <==> FoundIn(walk, i, p) {
        var step := walk[i - 1];
        StepPdfsMembers(step, |step.files|, p);
        if p in StepPdfs(step, |step.files|) {
          var k :| 0 <= k < |step.files| && PdfAt(step, k, p);
          assert FoundIn(walk, i, p) by {
            assert 0 <= i - 1 < i && IsPdfName(walk[i - 1].files[k]);
          }
        }
        if FoundIn(walk, i, p) {
          var s, j :| 0 <= s < i && 0 <= j < |walk[s].files| && IsPdfName(walk[s].files[j])
            && p == Paths.Join(walk[s].root, walk[s].files[j]);
          if s < i - 1 {
            assert FoundIn(walk, i - 1, p);
          } else {
            assert PdfAt(step, j, p);
          }
        }
      }
    }
  }

  lemma LowerAppend(a: string, b: string)
    ensures Lower(a + b) == Lower(a) + Lower(b)
  {
    assert forall k :: 0 <= k < |a + b| ==> Lower(a + b)[k] == (Lower(a) + Lower(b))[k];
  }

  /**
   * The suffix test ignores case: a name is a PDF name exactly when its last
   * four characters lower-case to ".pdf", so "REPORT.PDF" and "a.Pdf" qualify.
   */
  lemma PdfNameIgnoresCase(name: string)
    ensures IsPdfName(name) <==> |name| >= 4 && Lower(name[|name| - 4..]) == ".pdf"
  {
    if |name| >= 4 {
      LowerAppend(name[..|name| - 4], name[|name| - 4..]);
      assert name == name[..|name| - 4] + name[|name| - 4..];
    }
  }

  /** How pikepdf writes streams: kept as they are, or regenerated into object streams. */
  datatype ObjectStreamMode = Preserve | Generate

  /** The arguments `compress_pdf` passes to `pdf.save`. */
  datatype SaveSettings = SaveSettings(compressStreams: bool, objectStreamMode: ObjectStreamMode)

  /**
   * The compression level chosen in the interface, as save settings: only
   * "high" generates object streams, only "low" leaves streams uncompressed.
   */
  function LevelSettings(level: string): (s: SaveSettings)
    ensures s.objectStreamMode == Generate <==> level == "high"
    ensures !s.compressStreams <==> level == "low"
  {
    if level == "high" then SaveSettings(true, Generate)
    else if level == "low" then SaveSettings(false, Preserve)
    else SaveSettings(true, Preserve)
  }

  /** What the PDF library does with an input once asked to save it. */
  datatype SaveOutcome =
    | Saved(compressedSize: nat)      // written; the size of the output file
    | PasswordRejected                // pikepdf raised PasswordError
    | Raised(message: string)         // any other exception, by its text

  const NotFoundMessage := "Input file not found."
  const EmptyMessage := "File is empty"
  const PasswordMessage := "PDF is password-protected"

  /**
   * `compress_pdf`: `Ok(compressed_size)` stands for `(True, compressed_size)`
   * and `Err(m)` for `(False, m)`. A missing or empty input is rejected before
   * the library is consulted; otherwise the library is run with the settings
   * for `level` and its outcome decides the result.
   */
  function CompressPdf(inputExists: bool, originalSize: nat, level: string,
                       library: SaveSettings -> SaveOutcome): (r: Result<nat>)
    ensures r.Ok? <==> inputExists && originalSize > 0 && library(LevelSettings(level)).Saved?
    ensures r.Ok? ==> r.value == library(LevelSettings(level)).compressedSize
    ensures !inputExists ==> r == Err(NotFoundMessage)
    ensures inputExists && originalSize == 0 ==> r == Err(EmptyMessage)
    ensures inputExists && originalSize > 0 && library(LevelSettings(level)).PasswordRejected? ==>
      r == Err(PasswordMessage)
    ensures inputExists && originalSize > 0 && library(LevelSettings(level)).Raised? ==>
      r == Err(library(LevelSettings(level)).message)
  {
    if !inputExists then Err(NotFoundMessage)
    else if originalSize == 0 then Err(EmptyMessage)
    else
      match library(LevelSettings(level))
      case Saved(size) => Ok(size)
      case PasswordRejected => Err(PasswordMessage)
      case Raised(message) => Err(message)
  }

  /**
   * The reduction ratio `compress_pdf` logs after a save (the input is known
   * to be non-empty there): 0 when the output is not smaller, otherwise the
   * percentage saved, which lies in (0, 100].
   */
  function LoggedRatio(original: nat, compressed: nat): (ratio: real)
    requires original > 0
    ensures ratio == 0.0 <==> compressed >= original
    ensures 0.0 <= ratio <= 100.0
    ensures compressed < original ==> ratio * original as real == 100.0 * (original - compressed) as real
  {
    if compressed >= original then 0.0
    else
      var saved := (original - compressed) as real;
      var whole := original as real;
      assert 0.0 < saved <= whole;
      assert saved / whole <= 1.0;
      saved / whole * 100.0
  }
}
