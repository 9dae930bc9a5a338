/**
 * `extract_resume_text(file_path)` of backend/resume_parser.py: dispatch on the
 * lower-cased extension, concatenate the PDF pages or take the DOCX text, turn
 * every failure into `""`, and collapse whitespace with `" ".join(text.split())`.
 *
 * Opening the file and the PyPDF2 / docx2txt libraries are not modelled: what
 * they would yield for the file, or that they raise, is the `Source` parameter.
 */
module ResumeParser {
  import opened Wrappers
  import opened PyText

  /** A library call that returns a value or raises. */
  datatype Attempt<T> = Done(value: T) | Raised

  /**
   * What the libraries give for the file at the path: the PDF reader's pages,
   * each page's `extract_text()`, and `docx2txt.process`. An outer `Raised` is a
   * failure to open or parse the file.
   */
  datatype Source = Source(
    pdfPages: Attempt<seq<Attempt<Option<string>>>>,
    docxText: Attempt<Option<string>>)

  // ---------------------------------------------------------------------------
  // os.path.splitext(file_path)[1]
  // ---------------------------------------------------------------------------

  /** Some character of `s[from..to]` is not a dot. */
  predicate HasNonDot(s: string, from: int, to: int)
    requires 0 <= from && to <= |s|
  {
    exists k | from <= k < to :: s[k] != '.'
  }

  /**
   * The extension as POSIX `os.path.splitext` returns it: from the last dot of
   * the last path component to the end, unless every character before that dot
   * in the component is a dot (`.bashrc` has no extension).
   */
  function Extension(path: string): (ext: string)
    ensures |ext| <= |path|
    ensures ext == [] || (ext[0] == '.' && ext == path[|path| - |ext|..])
    ensures forall k | 0 < k < |ext| :: ext[k] != '.' && ext[k] != '/'
  {
    var sep := RFind(path, '/');
    var dot := RFind(path, '.');
    if dot > sep && HasNonDot(path, sep + 1, dot) then path[dot..] else ""
  }

  /** Lower-casing leaves every `/` and `.` where it was. */
  lemma LowerKeepsSeparators(path: string, from: int, to: int)
    requires 0 <= from && to <= |path|
    ensures RFind(Lower(path), '/') == RFind(path, '/')
    ensures RFind(Lower(path), '.') == RFind(path, '.')
    ensures HasNonDot(Lower(path), from, to) == HasNonDot(path, from, to)
  {
    var lp := Lower(path);
    assert forall k | 0 <= k < |path| :: (lp[k] == '/' <==> path[k] == '/') && (lp[k] == '.' <==> path[k] == '.');
    RFindSame(lp, path, '/');
    RFindSame(lp, path, '.');
  }

  /** `RFind` only looks at where the character occurs. */
  lemma RFindSame(s: string, t: string, c: char)
    requires |s| == |t|
    requires forall k | 0 <= k < |s| :: s[k] == c <==> t[k] == c
    ensures RFind(s, c) == RFind(t, c)
  {
  }

  /** The extension of the lower-cased path is the lower-cased extension. */
  lemma ExtensionOfLower(path: string)
    ensures Extension(Lower(path)) == Lower(Extension(path))
  {
    var sep, dot := RFind(path, '/'), RFind(path, '.');
    LowerKeepsSeparators(path, sep + 1, dot);
    if dot > sep && HasNonDot(path, sep + 1, dot) {
      assert Lower(path)[dot..] == Lower(path[dot..]);
    }
  }

  /** In `dir + "/" + name + "." + e`, with no `/` after `dir` and no `.` in `e`, the last `/` and the last `.` are the two written out. */
  lemma NamedPathSeparators(dir: string, name: string, e: string)
    requires '/' !in name && '.' !in e && '/' !in e
    ensures var path := dir + "/" + name + "." + e;
      RFind(path, '/') == |dir| && RFind(path, '.') == |dir| + 1 + |name| && path[|dir| + 1 + |name|..] == "." + e
  {
    var path := dir + "/" + name + "." + e;
    var s, d := |dir|, |dir| + 1 + |name|;
    assert path[s] == '/' && path[d] == '.';
    assert forall k | s < k < |path| :: path[k] != '/' by {
      forall k | s < k < |path| ensures path[k] != '/' {
        if k < d { assert path[k] == name[k - s - 1]; } else if k > d { assert path[k] == e[k - d - 1]; }
      }
    }
    assert forall k | d < k < |path| :: path[k] != '.' by {
      forall k | d < k < |path| ensures path[k] != '.' {
        assert path[k] == e[k - d - 1];
      }
    }
    assert path[d..] == "." + e;
  }

  /** A file name with something other than dots before its last dot has the extension from that dot on. */
  lemma ExtensionOfName(dir: string, name: string, e: string)
    requires '/' !in name && '.' !in e && '/' !in e
    requires exists j | 0 <= j < |name| :: name[j] != '.'
    ensures Extension(dir + "/" + name + "." + e) == "." + e
  {
    var path := dir + "/" + name + "." + e;
    NamedPathSeparators(dir, name, e);
    var j :| 0 <= j < |name| && name[j] != '.';
    assert path[|dir| + 1 + j] == name[j];
  }

  /** A file name that is only dots before its last dot, such as `.bashrc`, has no extension. */
  lemma ExtensionOfDotName(dir: string, name: string, e: string)
    requires '/' !in name && '.' !in e && '/' !in e
    requires forall j | 0 <= j < |name| :: name[j] == '.'
    ensures Extension(dir + "/" + name + "." + e) == ""
  {
    var path := dir + "/" + name + "." + e;
    NamedPathSeparators(dir, name, e);
    forall k | |dir| + 1 <= k < |dir| + 1 + |name| ensures path[k] == '.' {
      assert path[k] == name[k - |dir| - 1];
    }
  }

  /** A file name without a dot has no extension. */
  lemma ExtensionOfPlainName(dir: string, name: string)
    requires '/' !in name && '.' !in name
    ensures Extension(dir + "/" + name) == ""
  {
    var path := dir + "/" + name;
    assert path[|dir|] == '/';
    forall k | |dir| < k < |path| ensures path[k] != '/' && path[k] != '.' {
      assert path[k] == name[k - |dir| - 1];
    }
  }

  /** The lower-cased extension that selects the extractor (line 12). */
  function Kind(path: string): string {
    Lower(Extension(path))
  }

  /** The extractor is chosen by the lower-cased text after the file name's last dot: `cv/Resume.PDF` is read as a PDF. */
  lemma KindOfName(dir: string, name: string, e: string)
    requires '/' !in name && '.' !in e && '/' !in e
    requires exists j | 0 <= j < |name| :: name[j] != '.'
    ensures Kind(dir + "/" + name + "." + e) == "." + Lower(e)
  {
    ExtensionOfName(dir, name, e);
    assert Lower("." + e) == "." + Lower(e);
  }

  // ---------------------------------------------------------------------------
  // The PDF loop
  // ---------------------------------------------------------------------------

  /** What one page adds: its text and a newline, or nothing when its text is empty. */
  function PageChunk(page: Option<string>): (r: string)
    ensures r == "" <==> page.None? || page.value == ""
  {
    if page.Some? && page.value != "" then page.value + "\n" else ""
  }

  /** The text the loop has built after the given pages, or `Raised` if one of their `extract_text()` calls raised. */
  function PdfText(pages: seq<Attempt<Option<string>>>): (r: Attempt<string>)
    ensures r.Raised? <==> exists k | 0 <= k < |pages| :: pages[k].Raised?
  {
    if pages == [] then Done("")
    else
      var init := pages[..|pages| - 1];
      assert forall k | 0 <= k < |init| :: init[k] == pages[k];
      match (PdfText(init), pages[|pages| - 1])
      case (Done(t), Done(page)) => Done(t + PageChunk(page))
      case _ => Raised
  }

  /** The words of every page's text, in page order. */
  function PageWords(pages: seq<Attempt<Option<string>>>): seq<string> {
    if pages == [] then []
    else
      var last := pages[|pages| - 1];
      PageWords(pages[..|pages| - 1]) + (if last.Done? then Words(last.value.GetOr("")) else [])
  }

  /** The text built is empty or ends with the newline after its last kept page. */
  lemma PdfTextEnds(pages: seq<Attempt<Option<string>>>)
    requires PdfText(pages).Done?
    ensures var t := PdfText(pages).value; t == "" || t[|t| - 1] == '\n'
  {
    if pages != [] {
      PdfTextEnds(pages[..|pages| - 1]);
    }
  }

  /** The words of the built text are those of the pages, in page order: nothing is lost, merged or reordered. */
  lemma {:induction false} PdfTextWords(pages: seq<Attempt<Option<string>>>)
    requires PdfText(pages).Done?
    ensures Words(PdfText(pages).value) == PageWords(pages)
  {
    if pages != [] {
      var init := pages[..|pages| - 1];
      var t := PdfText(init).value;
      PdfTextWords(init);
      PdfTextEnds(init);
      var page := pages[|pages| - 1].value;
      assert PdfText(pages) == Done(t + PageChunk(page));
      assert PageWords(pages) == PageWords(init) + Words(page.GetOr(""));
      ChunkWords(t, page);
    }
  }

  /** Adding a page's chunk to text that is empty or ends in a newline adds the page's words. */
  lemma ChunkWords(t: string, page: Option<string>)
    requires t == "" || t[|t| - 1] == '\n'
    ensures Words(t + PageChunk(page)) == Words(t) + Words(page.GetOr(""))
  {
    WordsAfterSpace(t, PageChunk(page));
    if page.Some? && page.value != "" {
      assert PageChunk(page) == page.value + ['\n'] + "";
      WordsAtSpace(page.value, '\n', "");
      assert Words("") == [];
    } else {
      assert PageChunk(page) == "";
    }
  }

  // ---------------------------------------------------------------------------
  // extract_resume_text
  // ---------------------------------------------------------------------------

  /** What `extract_resume_text` returns for the path and what the libraries give. */
  function ExtractSpec(path: string, src: Source): string {
    ExtractByKind(Kind(path), src)
  }

  /** The dispatch of lines 17-32 on the lower-cased extension, followed by the normalisation of line 39. */
  function ExtractByKind(kind: string, src: Source): string {
    if kind == ".pdf" then
      if src.pdfPages.Raised? then ""
      else
        match PdfText(src.pdfPages.value)
        case Done(text) => Normalize(text)
        case Raised => ""
    else if kind == ".doc" || kind == ".docx" then
      if src.docxText.Raised? then "" else Normalize(src.docxText.value.GetOr(""))
    else ""
  }

  /** `extract_resume_text(file_path)`, with the PDF page loop of lines 20-23. */
  method ExtractResumeText(path: string, src: Source) returns (text: string)
    ensures text == ExtractSpec(path, src)
    ensures IsNormal(text)
  {
    var ext := Lower(Extension(path));
    text := "";
    if ext == ".pdf" {
      if src.pdfPages.Raised? {
        return "";
      }
      var pages := src.pdfPages.value;
      var i := 0;
      while i < |pages|
        invariant 0 <= i <= |pages|
        invariant PdfText(pages[..i]) == Done(text)
      {
        assert pages[..i + 1][..i] == pages[..i];
        if pages[i].Raised? {
          assert PdfText(pages[..i + 1]).Raised?;
          assert pages[..i + 1][i].Raised?;
          assert pages[i].Raised?;
          return "";
        }
        var pageText := pages[i].value;
        assert PdfText(pages[..i + 1]) == Done(text + PageChunk(pageText));
        assert PageChunk(pageText) == "" ==> text + PageChunk(pageText) == text;
        if pageText.Some? && pageText.value != "" {
          assert text + pageText.value + "\n" == text + (pageText.value + "\n");
          text := text + pageText.value + "\n";
        }
        i := i + 1;
      }
      assert pages[..i] == pages;
    } else if ext == ".doc" || ext == ".docx" {
      if src.docxText.Raised? {
        return "";
      }
      text := src.docxText.value.GetOr("");
    } else {
      return "";
    }
    NormalizeIsNormal(text);
    text := Normalize(text);
  }

  // ---------------------------------------------------------------------------
  // Properties of extract_resume_text
  // ---------------------------------------------------------------------------

  /** The extension is compared without regard to case: paths that lower-case alike give the same text. */
  lemma ExtensionCaseInsensitive(p: string, q: string, src: Source)
    requires Lower(p) == Lower(q)
    ensures ExtractSpec(p, src) == ExtractSpec(q, src)
  {
    ExtensionOfLower(p);
    ExtensionOfLower(q);
    assert Kind(p) == Kind(q);
  }

  /** Any other extension gives `""`, whatever the file holds. */
  lemma UnsupportedIsEmpty(path: string, src: Source)
    requires Kind(path) != ".pdf" && Kind(path) != ".doc" && Kind(path) != ".docx"
    ensures ExtractSpec(path, src) == ""
  {
  }

  /** A failure to open or read the PDF, or on any of its pages, gives `""`. */
  lemma PdfFailureIsEmpty(path: string, src: Source)
    requires Kind(path) == ".pdf"
    requires src.pdfPages.Raised? || exists k | 0 <= k < |src.pdfPages.value| :: src.pdfPages.value[k].Raised?
    ensures ExtractSpec(path, src) == ""
  {
  }

  /** A failure of the DOC/DOCX extractor gives `""`. */
  lemma DocxFailureIsEmpty(path: string, src: Source)
    requires Kind(path) == ".doc" || Kind(path) == ".docx"
    requires src.docxText.Raised?
    ensures ExtractSpec(path, src) == ""
  {
  }

  /**
   * The result has no whitespace but single spaces between words, is unchanged
   * by normalising again, and for a PDF holds exactly the words of its pages in page order.
   */
  lemma PdfResult(path: string, src: Source)
    requires Kind(path) == ".pdf" && src.pdfPages.Done? && PdfText(src.pdfPages.value).Done?
    ensures IsNormal(ExtractSpec(path, src))
    ensures Normalize(ExtractSpec(path, src)) == ExtractSpec(path, src)
    ensures Words(ExtractSpec(path, src)) == PageWords(src.pdfPages.value)
  {
    var text := PdfText(src.pdfPages.value).value;
    NormalizeIsNormal(text);
    NormalizeIdempotent(text);
    NormalizeKeepsWords(text);
    PdfTextWords(src.pdfPages.value);
  }

  /** A DOC/DOCX result keeps the document's words and is a fixed point of normalisation. */
  lemma DocxResult(path: string, src: Source)
    requires (Kind(path) == ".doc" || Kind(path) == ".docx") && src.docxText.Done?
    ensures IsNormal(ExtractSpec(path, src))
    ensures Normalize(ExtractSpec(path, src)) == ExtractSpec(path, src)
    ensures Words(ExtractSpec(path, src)) == Words(src.docxText.value.GetOr(""))
  {
    var text := src.docxText.value.GetOr("");
    NormalizeIsNormal(text);
    NormalizeIdempotent(text);
    NormalizeKeepsWords(text);
  }
}
