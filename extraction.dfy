/**
 * The extraction script: every file under the source directory whose
 * suffix is `.pdf`, `.epub` or `.mobi` (in any letter case) has its text
 * extracted, its line endings normalised, and the result written under the
 * output directory at the same relative path with the suffix `.txt`. A
 * failure on one file is reported and the run goes on with the next. The
 * parsers and the converter are given functions; the output directory is
 * an object whose files the run writes.
 */
module Extraction {
  import opened Wrappers
  import opened Strings

  /** A path as its components, `a/b/c.pdf` being `["a", "b", "c.pdf"]`. */
  type Path = seq<string>

  /** The separator both extractors put between chunks. */
  const ChunkSeparator: string := "\n\n"

  const SupportedSuffixes: set<string> := {".pdf", ".epub", ".mobi"}

  /* ---------------------------------------------------------------------
   * Names, suffixes and output paths (pathlib's rules)
   * ------------------------------------------------------------------- */

  /** The last component, or "" for the empty path. */
  function Name(p: Path): string {
    if p == [] then "" else p[|p| - 1]
  }

  /** `name.rfind('.')`: the position of the last dot, or -1. */
  function LastDot(name: string): (i: int)
    ensures -1 <= i < |name|
    ensures 0 <= i ==> name[i] == '.'
    ensures forall k :: i < k < |name| ==> name[k] != '.'
    decreases |name|
  {
    if name == [] then -1
    else if name[|name| - 1] == '.' then |name| - 1
    else LastDot(name[..|name| - 1])
  }

  /** Whether the last dot starts a suffix: not at the start of the name and not at its end. */
  predicate HasSuffix(name: string) {
    0 < LastDot(name) < |name| - 1
  }

  /** `PurePath.suffix`: from the last dot on, when that dot is neither first nor last. */
  function Suffix(name: string): string {
    if HasSuffix(name) then name[LastDot(name)..] else ""
  }

  /** `PurePath.stem`: the name without its suffix. */
  function Stem(name: string): string {
    if HasSuffix(name) then name[..LastDot(name)] else name
  }

  /** `with_suffix(suffix)` on the last component. */
  function WithSuffix(p: Path, suffix: string): Path {
    if p == [] then [] else p[..|p| - 1] + [Stem(Name(p)) + suffix]
  }

  /** `str.lower()` on ASCII letters; every other character is kept. */
  function LowerAscii(s: string): (r: string)
    ensures |r| == |s|
    ensures forall k :: 0 <= k < |s| ==> r[k] == (if 'A' <= s[k] <= 'Z' then (s[k] - 'A' + 'a') as char else s[k])
  {
    seq(|s|, k requires 0 <= k < |s| => if 'A' <= s[k] <= 'Z' then (s[k] - 'A' + 'a') as char else s[k])
  }

  /** `out_dir / rel.with_suffix(".txt")`. */
  function OutputPath(outDir: Path, rel: Path): Path {
    outDir + WithSuffix(rel, ".txt")
  }

  /** `tmp_dir / (mobi_path.stem + ".epub")`: where the MOBI file is converted to. */
  function ConvertedPath(tmpDir: Path, mobiPath: Path): Path {
    tmpDir + [Stem(Name(mobiPath)) + ".epub"]
  }

  datatype Format = Pdf | Epub | Mobi

  /** The extractor the lower-cased suffix chooses, None for a file that is skipped. */
  function Dispatch(name: string): Option<Format> {
    var ext := LowerAscii(Suffix(name));
    if ext == ".pdf" then Some(Pdf)
    else if ext == ".epub" then Some(Epub)
    else if ext == ".mobi" then Some(Mobi)
    else None
  }

  /* ---------------------------------------------------------------------
   * Joining pages and items
   * ------------------------------------------------------------------- */

  /**
   * One item of an EPUB book: the integer `get_type()` returns for it, and
   * the text BeautifulSoup gives its content.
   */
  datatype EpubItem = EpubItem(itemType: int, text: string)

  /** ebooklib's `ITEM_DOCUMENT`, the type of the book's XHTML documents. */
  const ItemDocument: int := 9

  /** An item gives a chunk when it is a document and its text is not empty. */
  predicate Contributes(item: EpubItem) {
    item.itemType == ItemDocument && item.text != ""
  }

  /** The text of a PDF: its pages' texts in page order, joined by a blank line. */
  function PdfText(pages: seq<string>): string {
    Join(pages, ChunkSeparator)
  }

  /** The chunks `extract_epub` collects: the non-empty texts of the document items, in item order (the type test intended). */
  function EpubChunks(items: seq<EpubItem>): (r: seq<string>)
    ensures forall k :: 0 <= k < |r| ==> r[k] != ""
    decreases |items|
  {
    if items == [] then []
    else
      var last := items[|items| - 1];
      EpubChunks(items[..|items| - 1]) + (if Contributes(last) then [last.text] else [])
  }

  function EpubText(items: seq<EpubItem>): string {
    Join(EpubChunks(items), ChunkSeparator)
  }

  /** The two kinds of Python value that the type test of `extract_epub` compares. */
  datatype PyValue = PyInt(n: int) | PyClass(qualifiedName: string)

  /**
   * The type test of `extract_epub` as written: the integer `get_type()`
   * returns, compared with the class object `ebooklib.epub.EpubHtml`.
   */
  predicate IsEpubHtmlAsWritten(item: EpubItem) {
    PyInt(item.itemType) == PyClass("ebooklib.epub.EpubHtml")
  }

  /** The chunks `extract_epub` collects as written, with its own type test. */
  function EpubChunksAsWritten(items: seq<EpubItem>): seq<string>
    decreases |items|
  {
    if items == [] then []
    else
      var last := items[|items| - 1];
      EpubChunksAsWritten(items[..|items| - 1])
        + (if IsEpubHtmlAsWritten(last) && last.text != "" then [last.text] else [])
  }

  function EpubTextAsWritten(items: seq<EpubItem>): string {
    Join(EpubChunksAsWritten(items), ChunkSeparator)
  }

  /** `extract_pdf`, once the pages' texts are known. */
  method ExtractPdf(pages: seq<string>) returns (text: string)
    ensures text == PdfText(pages)
  {
    var chunks: seq<string> := [];
    var i := 0;
    while i < |pages|
      invariant i <= |pages| && chunks == pages[..i]
    {
      chunks := chunks + [pages[i]];
      i := i + 1;
    }
    assert pages[..|pages|] == pages;
    text := Join(chunks, ChunkSeparator);
  }

  /** `extract_epub`, once the items and their texts are known. */
  method ExtractEpub(items: seq<EpubItem>) returns (text: string)
    ensures text == EpubText(items)
  {
    var chunks: seq<string> := [];
    var i := 0;
    while i < |items|
      invariant i <= |items| && chunks == EpubChunks(items[..i])
    {
      var item := items[i];
      assert items[..i + 1][..i] == items[..i];
      if item.itemType == ItemDocument && item.text != "" {
        chunks := chunks + [item.text];
      }
      i := i + 1;
    }
    assert items[..|items|] == items;
    text := Join(chunks, ChunkSeparator);
  }

  /* ---------------------------------------------------------------------
   * The run over all files
   * ------------------------------------------------------------------- */

  /** What `rglob("*")` yields: a path relative to the source directory, and whether it is a regular file. */
  datatype Entry = Entry(rel: Path, isFile: bool)

  /**
   * The parsers and the converter: each page's text of a PDF, each item of
   * an EPUB, and each item of the EPUB that `ebook-convert` writes from a
   * MOBI source to the given path (it reruns for every source, overwriting
   * that path, so the items belong to the source); None when the library or
   * the subprocess raised.
   */
  datatype Readers = Readers(pdfPages: Path -> Option<seq<string>>,
                             epubItems: Path -> Option<seq<EpubItem>>,
                             convertMobi: (Path, Path) -> Option<seq<EpubItem>>)

  /** One line of the run's report: a file written, or `Failed on` a source. */
  datatype Report =
    | Written(source: Path, target: Path, text: string)
    | FailedOn(source: Path)

  /** The extracted text of one source in a given format, None when extracting it raised. */
  function Extracted(readers: Readers, tmpDir: Path, path: Path, format: Format): Option<string> {
    match format
    case Pdf =>
      (match readers.pdfPages(path)
       case None => None
       case Some(pages) => Some(PdfText(pages)))
    case Epub =>
      (match readers.epubItems(path)
       case None => None
       case Some(items) => Some(EpubText(items)))
    case Mobi =>
      (match readers.convertMobi(path, ConvertedPath(tmpDir, path))
       case None => None
       case Some(items) => Some(EpubText(items)))
  }

  /** What one entry adds to the report: nothing when it is skipped, else one line. */
  function Step(rawDir: Path, outDir: Path, tmpDir: Path, readers: Readers, writable: Path -> bool,
                e: Entry): seq<Report>
  {
    if !e.isFile then []
    else
      match Dispatch(Name(e.rel))
      case None => []
      case Some(format) =>
        var path := rawDir + e.rel;
        var target := OutputPath(outDir, e.rel);
        match Extracted(readers, tmpDir, path, format)
        case None => [FailedOn(path)]
        case Some(text) =>
          var clean := NormalizeNewlines(text);
          if writable(target) then [Written(path, target, clean)] else [FailedOn(path)]
  }

  /** The report of the whole run, entry after entry. */
  function Reports(rawDir: Path, outDir: Path, tmpDir: Path, readers: Readers, writable: Path -> bool,
                   entries: seq<Entry>): seq<Report>
    decreases |entries|
  {
    if entries == [] then []
    else
      Reports(rawDir, outDir, tmpDir, readers, writable, entries[..|entries| - 1])
        + Step(rawDir, outDir, tmpDir, readers, writable, entries[|entries| - 1])
  }

  /** The output files once the written lines of a report have been written, in order. */
  function ApplyWrites(files: map<Path, string>, reports: seq<Report>): map<Path, string>
    decreases |reports|
  {
    if reports == [] then files
    else
      var before := ApplyWrites(files, reports[..|reports| - 1]);
      match reports[|reports| - 1]
      case Written(_, target, text) => before[target := text]
      case FailedOn(_) => before
  }

  /** The output directory: its files, and which paths can be written. */
  class OutputTree {
    var files: map<Path, string>
    const writable: Path -> bool

    constructor (files: map<Path, string>, writable: Path -> bool)
      ensures this.files == files && this.writable == writable
    {
      this.files := files;
      this.writable := writable;
    }

    /** `out_path.write_text(text)`; false when it raised. */
    method WriteText(p: Path, text: string) returns (ok: bool)
      modifies this
      ensures ok == writable(p)
      ensures files == if ok then old(files)[p := text] else old(files)
    {
      ok := writable(p);
      if ok {
        files := files[p := text];
      }
    }
  }

  /** The body of the loop of `main` for one entry, with its try/except. */
  method ExtractOne(rawDir: Path, outDir: Path, tmpDir: Path, readers: Readers, e: Entry, tree: OutputTree)
    returns (report: seq<Report>)
    modifies tree
    ensures report == Step(rawDir, outDir, tmpDir, readers, tree.writable, e)
    ensures tree.files == ApplyWrites(old(tree.files), report)
  {
    report := [];
    if !e.isFile {
      return;
    }
    var format := Dispatch(Name(e.rel));
    if format.None? {
      return;
    }
    var path := rawDir + e.rel;
    var target := OutputPath(outDir, e.rel);
    var text: Option<string> := None;
    match format.value {
    case Pdf =>
      var pages := readers.pdfPages(path);
      if pages.Some? {
        var t := ExtractPdf(pages.value);
        text := Some(t);
      }
    case Epub =>
      var items := readers.epubItems(path);
      if items.Some? {
        var t := ExtractEpub(items.value);
        text := Some(t);
      }
    case Mobi =>
      var epubPath := ConvertedPath(tmpDir, path);
      var items := readers.convertMobi(path, epubPath);
      if items.Some? {
        var t := ExtractEpub(items.value);
        text := Some(t);
      }
    }
    assert text == Extracted(readers, tmpDir, path, format.value);
    if text.None? {
      report := [FailedOn(path)];
      return;
    }
    var clean := NormalizeNewlines(text.value);
    var ok := tree.WriteText(target, clean);
    report := if ok then [Written(path, target, clean)] else [FailedOn(path)];
    assert Step(rawDir, outDir, tmpDir, readers, tree.writable, e) == report;
  }

  /** The loop of `main` over everything `rglob("*")` yields under the source directory. */
  method ExtractAll(rawDir: Path, outDir: Path, tmpDir: Path, readers: Readers, entries: seq<Entry>, tree: OutputTree)
    returns (reports: seq<Report>)
    modifies tree
    ensures reports == Reports(rawDir, outDir, tmpDir, readers, tree.writable, entries)
    ensures tree.files == ApplyWrites(old(tree.files), reports)
  {
    ghost var files0 := tree.files;
    reports := [];
    var i := 0;
    while i < |entries|
      invariant i <= |entries|
      invariant reports == Reports(rawDir, outDir, tmpDir, readers, tree.writable, entries[..i])
      invariant tree.files == ApplyWrites(files0, reports)
    {
      assert entries[..i + 1][..i] == entries[..i];
      ghost var before := reports;
      var report := ExtractOne(rawDir, outDir, tmpDir, readers, entries[i], tree);
      reports := reports + report;
      ApplyWritesAppend(files0, before, report);
      i := i + 1;
    }
    assert entries[..|entries|] == entries;
  }

  lemma {:induction false} ApplyWritesAppend(files: map<Path, string>, a: seq<Report>, b: seq<Report>)
    ensures ApplyWrites(files, a + b) == ApplyWrites(ApplyWrites(files, a), b)
    decreases |b|
  {
    if b == [] {
      assert a + b == a;
    } else {
      var last := |b| - 1;
      assert (a + b)[..|a + b| - 1] == a + b[..last];
      assert (a + b)[|a + b| - 1] == b[last];
      ApplyWritesAppend(files, a, b[..last]);
    }
  }

  /* ---------------------------------------------------------------------
   * Properties
   * ------------------------------------------------------------------- */

  /**
   * A file is processed exactly when it is a regular file whose lower-cased
   * suffix is one of the three supported ones, and then it gives exactly one
   * report line about itself.
   */
  lemma ProcessedIff(rawDir: Path, outDir: Path, tmpDir: Path, readers: Readers, writable: Path -> bool, e: Entry)
    ensures var r := Step(rawDir, outDir, tmpDir, readers, writable, e);
            && (r != [] <==> e.isFile && LowerAscii(Suffix(Name(e.rel))) in SupportedSuffixes)
            && |r| <= 1
            && (r != [] ==> r[0].source == rawDir + e.rel)
  {
  }

  /**
   * A failure on one file does not stop the run: the report of a run is the
   * report of its first entries followed by that of the rest, whatever
   * happened to the first.
   */
  lemma {:induction false} FailureIsolation(rawDir: Path, outDir: Path, tmpDir: Path, readers: Readers,
                                           writable: Path -> bool, a: seq<Entry>, b: seq<Entry>)
    ensures Reports(rawDir, outDir, tmpDir, readers, writable, a + b)
         == Reports(rawDir, outDir, tmpDir, readers, writable, a) + Reports(rawDir, outDir, tmpDir, readers, writable, b)
    decreases |b|
  {
    if b == [] {
      AppendEmpty(a);
    } else {
      var init, e := b[..|b| - 1], b[|b| - 1];
      AppendSnoc(a, b);
      FailureIsolation(rawDir, outDir, tmpDir, readers, writable, a, init);
      ReportsSnoc(rawDir, outDir, tmpDir, readers, writable, a + init, e);
      ReportsSnoc(rawDir, outDir, tmpDir, readers, writable, init, e);
      AppendAssoc(Reports(rawDir, outDir, tmpDir, readers, writable, a),
                  Reports(rawDir, outDir, tmpDir, readers, writable, init),
                  Step(rawDir, outDir, tmpDir, readers, writable, e));
    }
  }

  /** One more entry adds its own lines at the end of the report. */
  lemma ReportsSnoc(rawDir: Path, outDir: Path, tmpDir: Path, readers: Readers,
                    writable: Path -> bool, entries: seq<Entry>, e: Entry)
    ensures Reports(rawDir, outDir, tmpDir, readers, writable, entries + [e])
         == Reports(rawDir, outDir, tmpDir, readers, writable, entries) + Step(rawDir, outDir, tmpDir, readers, writable, e)
  {
    assert (entries + [e])[..|entries|] == entries;
  }

  /** No text written according to the report holds a carriage return. */
  predicate WrittenWithoutCr(r: seq<Report>) {
    forall k :: 0 <= k < |r| ==> r[k].Written? ==> '\r' !in r[k].text
  }

  lemma WrittenWithoutCrAppend(a: seq<Report>, b: seq<Report>)
    requires WrittenWithoutCr(a) && WrittenWithoutCr(b)
    ensures WrittenWithoutCr(a + b)
  {
    forall k | 0 <= k < |a + b|
      ensures (a + b)[k].Written? ==> '\r' !in (a + b)[k].text
    {
      if k < |a| {
        assert (a + b)[k] == a[k];
      } else {
        assert (a + b)[k] == b[k - |a|];
      }
    }
  }

  /** Every text the run writes is normalised, and so holds no carriage return. */
  lemma {:induction false} WrittenTextsHaveNoCr(rawDir: Path, outDir: Path, tmpDir: Path, readers: Readers,
                                               writable: Path -> bool, entries: seq<Entry>)
    ensures WrittenWithoutCr(Reports(rawDir, outDir, tmpDir, readers, writable, entries))
    decreases |entries|
  {
    if entries != [] {
      var init := entries[..|entries| - 1];
      WrittenTextsHaveNoCr(rawDir, outDir, tmpDir, readers, writable, init);
      StepWrittenHasNoCr(rawDir, outDir, tmpDir, readers, writable, entries[|entries| - 1]);
      WrittenWithoutCrAppend(Reports(rawDir, outDir, tmpDir, readers, writable, init),
                             Step(rawDir, outDir, tmpDir, readers, writable, entries[|entries| - 1]));
    }
  }

  lemma StepWrittenHasNoCr(rawDir: Path, outDir: Path, tmpDir: Path, readers: Readers,
                           writable: Path -> bool, e: Entry)
    ensures WrittenWithoutCr(Step(rawDir, outDir, tmpDir, readers, writable, e))
  {
    if e.isFile && Dispatch(Name(e.rel)).Some? {
      var text := Extracted(readers, tmpDir, rawDir + e.rel, Dispatch(Name(e.rel)).value);
      if text.Some? {
        NormalizedHasNoCr(text.value);
      }
    }
  }

  lemma LowerAsciiIdempotent(s: string)
    ensures LowerAscii(LowerAscii(s)) == LowerAscii(s)
  {
  }

  /** `ext` is a dot followed by at least one character and no other dot, such as `.pdf`. */
  predicate DottedSuffix(ext: string) {
    |ext| >= 2 && ext[0] == '.' && forall k :: 1 <= k < |ext| ==> ext[k] != '.'
  }

  /** Lower-casing changes no character into a dot or out of one. */
  lemma LowerKeepsDotted(ext: string)
    requires DottedSuffix(ext)
    ensures DottedSuffix(LowerAscii(ext))
  {
  }

  /** A name `stem + ext` has the suffix `ext` and the stem `stem` when `ext` is a dotted suffix. */
  lemma SuffixOfDotted(stem: string, ext: string)
    requires stem != [] && DottedSuffix(ext)
    ensures Suffix(stem + ext) == ext && Stem(stem + ext) == stem
  {
    var name := stem + ext;
    assert name[|stem|] == '.';
    forall k | |stem| < k < |name| ensures name[k] != '.' {
      assert name[k] == ext[k - |stem|];
    }
    assert LastDot(name) == |stem|;
    assert name[|stem|..] == ext && name[..|stem|] == stem;
  }

  /** Dispatch ignores letter case: `report.PDF` is extracted as a PDF, and so are `.Pdf` and `.pdf`. */
  lemma CaseInsensitiveDispatch(stem: string, ext: string)
    requires stem != [] && DottedSuffix(ext)
    ensures Dispatch(stem + ext) == Dispatch(stem + LowerAscii(ext))
    ensures LowerAscii(ext) == ".pdf" ==> Dispatch(stem + ext) == Some(Pdf)
  {
    SuffixOfDotted(stem, ext);
    LowerKeepsDotted(ext);
    SuffixOfDotted(stem, LowerAscii(ext));
    LowerAsciiIdempotent(ext);
  }

  lemma UpperCasePdf(stem: string)
    requires stem != []
    ensures Dispatch(stem + ".PDF") == Some(Pdf)
  {
    CaseInsensitiveDispatch(stem, ".PDF");
    assert LowerAscii(".PDF") == ".pdf";
  }

  /** A name that is only a dot and a suffix, such as `.pdf`, has no suffix in pathlib's sense and is skipped. */
  lemma DotFileSkipped(ext: string)
    requires DottedSuffix(ext)
    ensures Suffix(ext) == "" && Dispatch(ext) == None
  {
    assert LastDot(ext) == 0;
  }

  /**
   * The output path lies under the output directory, at the input's relative
   * directory, with the input's stem and the suffix `.txt`.
   */
  lemma OutputPathShape(outDir: Path, rel: Path)
    requires rel != [] && HasSuffix(Name(rel))
    ensures var out := OutputPath(outDir, rel);
            && |out| == |outDir| + |rel|
            && out[..|outDir|] == outDir
            && out[|outDir|..|out| - 1] == rel[..|rel| - 1]
            && Suffix(Name(out)) == ".txt"
            && Stem(Name(out)) == Stem(Name(rel))
  {
    var stem := Stem(Name(rel));
    assert stem != [];
    var out := OutputPath(outDir, rel);
    assert Name(out) == stem + ".txt";
    SuffixOfDotted(stem, ".txt");
  }

  /** A PDF's text is empty exactly when it has no page or its one page is empty. */
  lemma PdfTextEmpty(pages: seq<string>)
    ensures PdfText(pages) == "" <==> |pages| == 0 || (|pages| == 1 && pages[0] == "")
  {
  }

  /**
   * No blank line between pages is lost or added: when no page holds the
   * separator and none ends in a newline, splitting the text on the
   * separator gives back the pages, in order.
   */
  lemma PdfPagesSplitBack(pages: seq<string>)
    requires pages != []
    requires forall k :: 0 <= k < |pages| ==> NoMatchBefore(pages[k] + ChunkSeparator, ChunkSeparator, |pages[k]|)
    ensures Split(PdfText(pages), ChunkSeparator) == pages
  {
    var sep := ChunkSeparator;
    var last := pages[|pages| - 1];
    assert NoMatchBefore(last, sep, |last|) by {
      forall i | 0 <= i < |last| ensures !OccursAt(last, sep, i) {
        if OccursAt(last, sep, i) {
          assert (last + sep)[i..i + |sep|] == last[i..i + |sep|];
          assert OccursAt(last + sep, sep, i);
        }
      }
    }
    SplitOfJoin(pages, sep);
  }

  lemma {:induction false} EpubChunksAppend(a: seq<EpubItem>, b: seq<EpubItem>)
    ensures EpubChunks(a + b) == EpubChunks(a) + EpubChunks(b)
    decreases |b|
  {
    if b == [] {
      assert a + b == a;
    } else {
      var last := |b| - 1;
      assert (a + b)[..|a + b| - 1] == a + b[..last];
      assert (a + b)[|a + b| - 1] == b[last];
      EpubChunksAppend(a, b[..last]);
    }
  }

  /**
   * Only document items with text contribute, each exactly at its place: an
   * item that does not contribute leaves the text as if it were absent (no
   * separator for it), and one that does adds its text between those of the
   * items around it.
   */
  lemma EpubItemContribution(a: seq<EpubItem>, item: EpubItem, b: seq<EpubItem>)
    ensures EpubChunks(a + [item] + b)
         == EpubChunks(a) + (if Contributes(item) then [item.text] else []) + EpubChunks(b)
    ensures !Contributes(item) ==> EpubText(a + [item] + b) == EpubText(a + b)
  {
    EpubChunksAppend(a + [item], b);
    EpubChunksAppend(a, [item]);
    EpubChunksAppend(a, b);
    assert [item][..0] == [];
    if !Contributes(item) {
      assert EpubChunks(a) + [] + EpubChunks(b) == EpubChunks(a) + EpubChunks(b);
    }
  }

  /** Every chunk is the text of a contributing item, and every contributing item gives a chunk. */
  lemma {:induction false} EpubChunksAreContributions(items: seq<EpubItem>)
    ensures forall x :: x in EpubChunks(items) <==> exists j :: 0 <= j < |items| && Contributes(items[j]) && items[j].text == x
    decreases |items|
  {
    if items != [] {
      var init := items[..|items| - 1];
      var last := items[|items| - 1];
      EpubChunksAreContributions(init);
      forall x ensures x in EpubChunks(items) <==> exists j :: 0 <= j < |items| && Contributes(items[j]) && items[j].text == x
      {
        if x in EpubChunks(init) {
          var j :| 0 <= j < |init| && Contributes(init[j]) && init[j].text == x;
          assert items[j] == init[j];
        }
        if exists j :: 0 <= j < |items| && Contributes(items[j]) && items[j].text == x {
          var j :| 0 <= j < |items| && Contributes(items[j]) && items[j].text == x;
          if j < |init| {
            assert init[j] == items[j];
          }
        }
      }
    }
  }

  /** An EPUB's text is empty exactly when no item contributes. */
  lemma EpubTextEmptyIff(items: seq<EpubItem>)
    ensures EpubText(items) == "" <==> forall j :: 0 <= j < |items| ==> !Contributes(items[j])
  {
    var chunks := EpubChunks(items);
    EpubChunksAreContributions(items);
    forall j | 0 <= j < |items| ensures Contributes(items[j]) ==> items[j].text in chunks {
    }
    if chunks != [] {
      assert chunks[0] in chunks;
      var j :| 0 <= j < |items| && Contributes(items[j]) && items[j].text == chunks[0];
      JoinNotEmpty(chunks);
    }
  }

  /** As written, no item passes the type test, so every book's text is empty. */
  lemma {:induction false} EpubTextAsWrittenEmpty(items: seq<EpubItem>)
    ensures EpubChunksAsWritten(items) == []
    ensures EpubTextAsWritten(items) == ""
    decreases |items|
  {
    if items != [] {
      EpubTextAsWrittenEmpty(items[..|items| - 1]);
      assert !IsEpubHtmlAsWritten(items[|items| - 1]);
    }
  }

  /**
   * A book with one XHTML chapter whose text is "Hello": as written its text
   * is empty, and with the test on `ITEM_DOCUMENT` it is "Hello".
   */
  lemma EpubChapterDropped()
    ensures var items := [EpubItem(ItemDocument, "Hello")];
            EpubTextAsWritten(items) == "" && EpubText(items) == "Hello"
  {
    var items := [EpubItem(ItemDocument, "Hello")];
    EpubTextAsWrittenEmpty(items);
    assert items[..0] == [];
    assert EpubChunks(items) == ["Hello"];
  }

  /**
   * A MOBI source's text depends only on the conversion of that source: two
   * sets of readers that convert it alike give it the same text, whatever
   * they do with every other source sharing its converted path.
   */
  lemma MobiTextFromOwnConversion(r1: Readers, r2: Readers, tmpDir: Path, path: Path)
    requires r1.convertMobi(path, ConvertedPath(tmpDir, path)) == r2.convertMobi(path, ConvertedPath(tmpDir, path))
    ensures Extracted(r1, tmpDir, path, Mobi) == Extracted(r2, tmpDir, path, Mobi)
  {
  }

  /**
   * An example: two MOBI sources with one stem are converted to the same
   * path, and each still gives the text of its own conversion.
   */
  lemma SameStemMobisKeepTheirTexts(readers: Readers, tmpDir: Path)
    requires readers.convertMobi(["a", "book.mobi"], ConvertedPath(tmpDir, ["a", "book.mobi"]))
             == Some([EpubItem(ItemDocument, "first book")])
    requires readers.convertMobi(["b", "book.mobi"], ConvertedPath(tmpDir, ["b", "book.mobi"]))
             == Some([EpubItem(ItemDocument, "second book")])
    ensures ConvertedPath(tmpDir, ["a", "book.mobi"]) == ConvertedPath(tmpDir, ["b", "book.mobi"])
    ensures Extracted(readers, tmpDir, ["a", "book.mobi"], Mobi) == Some("first book")
    ensures Extracted(readers, tmpDir, ["b", "book.mobi"], Mobi) == Some("second book")
  {
    var a := [EpubItem(ItemDocument, "first book")];
    var b := [EpubItem(ItemDocument, "second book")];
    assert a[..0] == [] && b[..0] == [];
    assert EpubChunks(a) == ["first book"];
    assert EpubChunks(b) == ["second book"];
  }

  lemma JoinNotEmpty(parts: seq<string>)
    requires parts != [] && parts[0] != ""
    ensures Join(parts, ChunkSeparator) != ""
  {
    JoinCons(parts[0], parts[1..], ChunkSeparator);
    assert [parts[0]] + parts[1..] == parts;
  }
}
