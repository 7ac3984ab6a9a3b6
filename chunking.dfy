/**
 * Paragraph chunking of the indexer (`iter_paragraphs`): each text is split
 * on blank lines, every piece is stripped, pieces of at most 40 characters
 * are dropped and the rest are numbered from 0 within their file.
 */
module Chunking {
  import opened Wrappers
  import opened Strings

  /** The literal separator of `text.split("\n\n")`. */
  const ParagraphSeparator: string := "\n\n"

  /** A stripped piece is kept only when it is longer than this. */
  const MinParagraphLength: nat := 40

  /**
   * One path matched by `rglob("*.txt")`: its `str()` form, whether it is a
   * regular file, and its decoded text, or None when reading it raised.
   */
  datatype TextFile = TextFile(path: string, isFile: bool, content: Option<string>)

  /** One yielded `(file_path, paragraph_index, paragraph_text)`. */
  datatype Paragraph = Paragraph(file: string, index: nat, text: string)

  /** `[p.strip() for p in text.split("\n\n")]`. */
  function Pieces(text: string): (r: seq<string>)
    ensures forall k :: 0 <= k < |r| ==> Stripped(r[k])
  {
    var raw := Split(text, ParagraphSeparator);
    seq(|raw|, k requires 0 <= k < |raw| => Strip(raw[k]))
  }

  predicate IsLong(p: string) {
    |p| > MinParagraphLength
  }

  /** `[p for p in raw_paragraphs if len(p) > 40]`. */
  function KeepLong(ps: seq<string>): (r: seq<string>)
    ensures |r| <= |ps|
    ensures forall k :: 0 <= k < |r| ==> IsLong(r[k]) && r[k] in ps
    decreases |ps|
  {
    if ps == [] then []
    else (if IsLong(ps[0]) then [ps[0]] else []) + KeepLong(ps[1..])
  }

  /** Where each kept piece came from: its position in `ps`. */
  ghost function KeptPositions(ps: seq<string>): (pos: seq<nat>)
    decreases |ps|
  {
    if ps == [] then []
    else
      var rest := KeptPositions(ps[1..]);
      var shifted := seq(|rest|, k requires 0 <= k < |rest| => rest[k] + 1);
      if IsLong(ps[0]) then [0] + shifted else shifted
  }

  /** A kept-position list of `ps` is its tail's, shifted by one, after 0 when the head is long. */
  lemma {:induction false} KeptPositionsUnfold(ps: seq<string>)
    requires ps != []
    ensures var rest := KeptPositions(ps[1..]);
            var head: seq<nat> := if IsLong(ps[0]) then [0] else [];
            var pos := KeptPositions(ps);
            && |pos| == |head| + |rest|
            && (forall k :: 0 <= k < |head| ==> pos[k] == 0)
            && (forall m :: 0 <= m < |rest| ==> pos[|head| + m] == rest[m] + 1)
            && KeepLong(ps) == (if IsLong(ps[0]) then [ps[0]] else []) + KeepLong(ps[1..])
  {
  }

  lemma {:induction false} KeptPositionsPick(ps: seq<string>)
    ensures var pos := KeptPositions(ps);
            && |pos| == |KeepLong(ps)|
            && (forall k :: 0 <= k < |pos| ==> pos[k] < |ps| && ps[pos[k]] == KeepLong(ps)[k])
    decreases |ps|
  {
    if ps != [] {
      var tail := ps[1..];
      KeptPositionsPick(tail);
      KeptPositionsUnfold(ps);
      var rest := KeptPositions(tail);
      var pos := KeptPositions(ps);
      var h := if IsLong(ps[0]) then 1 else 0;
      forall k | h <= k < |pos|
        ensures pos[k] < |ps| && ps[pos[k]] == KeepLong(ps)[k]
      {
        assert pos[k] == rest[k - h] + 1;
        assert ps[pos[k]] == tail[rest[k - h]];
        assert KeepLong(ps)[k] == KeepLong(tail)[k - h];
      }
    }
  }

  lemma {:induction false} KeptPositionsIncreasing(ps: seq<string>)
    ensures var pos := KeptPositions(ps);
            forall k, l :: 0 <= k < l < |pos| ==> pos[k] < pos[l]
    decreases |ps|
  {
    if ps != [] {
      KeptPositionsIncreasing(ps[1..]);
      KeptPositionsUnfold(ps);
      var rest := KeptPositions(ps[1..]);
      var pos := KeptPositions(ps);
      var h := if IsLong(ps[0]) then 1 else 0;
      forall k, l | 0 <= k < l < |pos|
        ensures pos[k] < pos[l]
      {
        assert pos[l] == rest[l - h] + 1;
        if k >= h {
          assert pos[k] == rest[k - h] + 1;
        }
      }
    }
  }

  lemma {:induction false} KeptPositionsCover(ps: seq<string>)
    ensures var pos := KeptPositions(ps);
            forall j :: 0 <= j < |ps| && IsLong(ps[j]) ==> j in pos
    decreases |ps|
  {
    if ps != [] {
      var tail := ps[1..];
      KeptPositionsCover(tail);
      KeptPositionsUnfold(ps);
      var rest := KeptPositions(tail);
      var pos := KeptPositions(ps);
      var h := if IsLong(ps[0]) then 1 else 0;
      forall j | 0 <= j < |ps| && IsLong(ps[j])
        ensures j in pos
      {
        if j > 0 {
          assert tail[j - 1] == ps[j];
          var m :| 0 <= m < |rest| && rest[m] == j - 1;
          assert pos[h + m] == j;
        } else {
          assert pos[0] == 0;
        }
      }
    }
  }

  /**
   * The kept pieces are a subsequence of `ps`: KeptPositions gives strictly
   * increasing positions, one per kept piece, and covers every long piece.
   */
  lemma KeptPositionsCorrect(ps: seq<string>)
    ensures var pos := KeptPositions(ps);
            && |pos| == |KeepLong(ps)|
            && (forall k :: 0 <= k < |pos| ==> pos[k] < |ps| && ps[pos[k]] == KeepLong(ps)[k])
            && (forall k, l :: 0 <= k < l < |pos| ==> pos[k] < pos[l])
            && (forall j :: 0 <= j < |ps| && IsLong(ps[j]) ==> j in pos)
  {
    KeptPositionsPick(ps);
    KeptPositionsIncreasing(ps);
    KeptPositionsCover(ps);
  }

  /** Keeping the long pieces of stripped pieces keeps stripped pieces. */
  lemma KeptAreStripped(ps: seq<string>)
    requires forall j :: 0 <= j < |ps| ==> Stripped(ps[j])
    ensures forall k :: 0 <= k < |KeepLong(ps)| ==> Stripped(KeepLong(ps)[k])
  {
    var kept := KeepLong(ps);
    forall k | 0 <= k < |kept| ensures Stripped(kept[k]) {
      var j :| 0 <= j < |ps| && ps[j] == kept[k];
    }
  }

  /** `enumerate(texts)`, each text tagged with `file`. */
  function Numbered(file: string, texts: seq<string>): (r: seq<Paragraph>)
    ensures |r| == |texts|
    ensures forall k :: 0 <= k < |r| ==> r[k] == Paragraph(file, k, texts[k])
  {
    seq(|texts|, k requires 0 <= k < |texts| => Paragraph(file, k, texts[k]))
  }

  /** The paragraphs of one text, numbered from 0. */
  function FileParagraphs(file: string, text: string): (r: seq<Paragraph>)
    ensures forall k :: 0 <= k < |r| ==>
              && r[k].file == file && r[k].index == k
              && IsLong(r[k].text) && Stripped(r[k].text)
  {
    var ps := Pieces(text);
    KeptAreStripped(ps);
    Numbered(file, KeepLong(ps))
  }

  /** What one matched path contributes: nothing when it is not a file or cannot be read. */
  function FileYield(f: TextFile): seq<Paragraph> {
    if !f.isFile || f.content.None? then [] else FileParagraphs(f.path, f.content.value)
  }

  /** The whole stream `iter_paragraphs` yields, file after file. */
  function IterParagraphs(files: seq<TextFile>): (r: seq<Paragraph>)
    ensures forall k :: 0 <= k < |r| ==> IsLong(r[k].text) && Stripped(r[k].text)
    decreases |files|
  {
    if files == [] then [] else FileYield(files[0]) + IterParagraphs(files[1..])
  }

  lemma ConcatEmpty<T>(a: seq<T>, b: seq<T>)
    ensures a + b == [] <==> a == [] && b == []
  {
    assert |a + b| == |a| + |b|;
  }

  /** The stream is empty exactly when no path yields a paragraph. */
  lemma {:induction false} EmptyStreamIff(files: seq<TextFile>)
    ensures IterParagraphs(files) == [] <==> forall j :: 0 <= j < |files| ==> FileYield(files[j]) == []
    decreases |files|
  {
    if files != [] {
      EmptyStreamIff(files[1..]);
      EmptyStreamStep(files);
      NoYieldsStep(files);
    }
  }

  /** The stream is empty exactly when its first block and the stream after it are. */
  lemma EmptyStreamStep(files: seq<TextFile>)
    requires files != []
    ensures IterParagraphs(files) == [] <==> FileYield(files[0]) == [] && IterParagraphs(files[1..]) == []
  {
    ConcatEmpty(FileYield(files[0]), IterParagraphs(files[1..]));
  }

  /** Every path yields nothing exactly when the first does and every later one does. */
  lemma NoYieldsStep(files: seq<TextFile>)
    requires files != []
    ensures (forall j :: 0 <= j < |files| ==> FileYield(files[j]) == [])
        <==> FileYield(files[0]) == [] && forall j :: 0 <= j < |files[1..]| ==> FileYield(files[1..][j]) == []
  {
    var tail := files[1..];
    assert forall j :: 0 <= j < |tail| ==> tail[j] == files[j + 1];
    if FileYield(files[0]) == [] && forall j :: 0 <= j < |tail| ==> FileYield(tail[j]) == [] {
      forall j | 0 < j < |files| ensures FileYield(files[j]) == [] {
        assert files[j] == tail[j - 1];
      }
    }
  }

  /**
   * Paragraphs `r` were taken from the raw pieces `raw` at the positions
   * `pos`: paragraph k is the stripped piece at `pos[k]` and is numbered k,
   * the positions increase, and every piece at no position is at most 40
   * characters long once stripped.
   */
  ghost predicate KeptInOrder(raw: seq<string>, r: seq<Paragraph>, pos: seq<nat>) {
    && |pos| == |r|
    && (forall k :: 0 <= k < |r| ==> r[k].index == k && pos[k] < |raw| && r[k].text == Strip(raw[pos[k]]))
    && (forall k, l :: 0 <= k < l < |r| ==> pos[k] < pos[l])
    && (forall j :: 0 <= j < |raw| && j !in pos ==> |Strip(raw[j])| <= MinParagraphLength)
  }

  /**
   * The kept paragraphs of a text are its long stripped pieces, in the order
   * of the pieces; every piece left out is at most 40 characters long; the
   * indices are 0..n-1 with no gap where a piece was dropped.
   */
  lemma {:induction false} ParagraphsAreLongPiecesInOrder(file: string, text: string)
    ensures KeptInOrder(Split(text, ParagraphSeparator), FileParagraphs(file, text), KeptPositions(Pieces(text)))
  {
    var raw := Split(text, ParagraphSeparator);
    var ps := Pieces(text);
    var kept := KeepLong(ps);
    var r := FileParagraphs(file, text);
    var pos := KeptPositions(ps);
    KeptPositionsCorrect(ps);
    assert |ps| == |raw| && |r| == |kept|;
    forall k | 0 <= k < |r|
      ensures r[k].index == k && pos[k] < |raw| && r[k].text == Strip(raw[pos[k]])
    {
      assert r[k].text == kept[k] == ps[pos[k]];
    }
    forall j | 0 <= j < |ps| && j !in pos
      ensures !IsLong(ps[j])
    {
    }
  }

  lemma {:induction false} IterParagraphsAppend(a: seq<TextFile>, b: seq<TextFile>)
    ensures IterParagraphs(a + b) == IterParagraphs(a) + IterParagraphs(b)
    decreases |a|
  {
    if a != [] {
      assert (a + b)[0] == a[0];
      assert (a + b)[1..] == a[1..] + b;
      IterParagraphsAppend(a[1..], b);
      calc {
        IterParagraphs(a + b);
        FileYield(a[0]) + IterParagraphs(a[1..] + b);
        FileYield(a[0]) + (IterParagraphs(a[1..]) + IterParagraphs(b));
        (FileYield(a[0]) + IterParagraphs(a[1..])) + IterParagraphs(b);
      }
    } else {
      assert a + b == b;
    }
  }

  /**
   * In the stream, the paragraphs of the j-th path come as one block, after
   * those of the paths before it and before those of the paths after it.
   */
  lemma {:induction false} FileBlockInStream(files: seq<TextFile>, j: nat)
    requires j < |files|
    ensures IterParagraphs(files)
         == IterParagraphs(files[..j]) + FileYield(files[j]) + IterParagraphs(files[j + 1..])
  {
    var rest := [files[j]] + files[j + 1..];
    assert files == files[..j] + rest;
    IterParagraphsAppend(files[..j], rest);
    IterParagraphsCons(files[j], files[j + 1..]);
  }

  lemma IterParagraphsCons(f: TextFile, files: seq<TextFile>)
    ensures IterParagraphs([f] + files) == FileYield(f) + IterParagraphs(files)
  {
    assert ([f] + files)[1..] == files;
  }

  lemma SplitShortThenLong(a: string, b: string)
    requires '\n' !in a && '\n' !in b
    ensures Split(a + ParagraphSeparator + b, ParagraphSeparator) == [a, b]
  {
    var sep := ParagraphSeparator;
    forall i | 0 <= i < |a| ensures !OccursAt(a + sep, sep, i) {
      assert (a + sep)[i] == a[i] && a[i] in a;
      NoOccurrenceAt(a + sep, sep, i);
    }
    forall i | 0 <= i < |b| ensures !OccursAt(b, sep, i) {
      assert b[i] in b;
      NoOccurrenceAt(b, sep, i);
    }
    SplitOfJoin([a, b], sep);
    assert Join([a, b], sep) == a + sep + b;
  }

  lemma KeepSecondOnly(x: string, b: string)
    requires !IsLong(x) && IsLong(b)
    ensures KeepLong([x, b]) == [b]
  {
    assert [x, b][1..] == [b];
    assert [b][1..] == [];
  }

  /**
   * The worked example: a short first paragraph (such as "Short.") is dropped
   * and a long second one becomes paragraph 0.
   */
  lemma {:induction false} ShortThenLongParagraph(file: string, a: string, b: string)
    requires '\n' !in a && |Strip(a)| <= MinParagraphLength
    requires '\n' !in b && Stripped(b) && IsLong(b)
    ensures FileParagraphs(file, a + ParagraphSeparator + b) == [Paragraph(file, 0, b)]
  {
    SplitShortThenLong(a, b);
    ShortThenLongSplit(file, a + ParagraphSeparator + b, a, b);
  }

  /** A text that splits into a short piece and then a long stripped one. */
  lemma ShortThenLongSplit(file: string, text: string, a: string, b: string)
    requires Split(text, ParagraphSeparator) == [a, b]
    requires !IsLong(Strip(a)) && Stripped(b) && IsLong(b)
    ensures FileParagraphs(file, text) == [Paragraph(file, 0, b)]
  {
    PiecesOfTwo(text, a, b);
    StrippedIsFixed(b);
    ShortThenLongPieces(file, text, Strip(a), b);
  }

  /** Pieces `[x, b]` with only `b` long give the single paragraph `b`, numbered 0. */
  lemma ShortThenLongPieces(file: string, text: string, x: string, b: string)
    requires Pieces(text) == [x, b] && !IsLong(x) && IsLong(b)
    ensures FileParagraphs(file, text) == [Paragraph(file, 0, b)]
  {
    KeepSecondOnly(x, b);
    NumberedSingle(file, b);
  }

  lemma NumberedSingle(file: string, t: string)
    ensures Numbered(file, [t]) == [Paragraph(file, 0, t)]
  {
  }

  lemma PiecesOfTwo(text: string, a: string, b: string)
    requires Split(text, ParagraphSeparator) == [a, b]
    ensures Pieces(text) == [Strip(a), Strip(b)]
  {
    var ps := Pieces(text);
    assert |ps| == 2 && ps[0] == Strip(a) && ps[1] == Strip(b);
  }
}
