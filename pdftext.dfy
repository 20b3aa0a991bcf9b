/** The page loop of `extract_text_from_pdf_filelike`: each page's embedded
    text, or its OCR text when OCR is on and the page has none, followed by a
    newline. Pages are given as their embedded text; `ocr(i, dpi)` is the OCR
    output for page `i` rendered at `dpi`. */
module PdfText {
  import opened Text

  /** The text page `i` contributes (before its newline): its OCR text when
      OCR is on and its own text is blank (`not page_text.strip()`). */
  function PageText(pages: seq<string>, i: nat, enableOcr: bool, ocrDpi: int,
                    ocr: (nat, int) -> string): string
    requires i < |pages|
  {
    if enableOcr && IsBlank(pages[i]) then ocr(i, ocrDpi) else pages[i]
  }

  /** The text each page contributes, in page order. */
  function PageTexts(pages: seq<string>, enableOcr: bool, ocrDpi: int,
                     ocr: (nat, int) -> string): (ts: seq<string>)
    ensures |ts| == |pages|
    ensures forall i :: 0 <= i < |pages| ==> ts[i] == PageText(pages, i, enableOcr, ocrDpi, ocr)
  {
    seq(|pages|, i requires 0 <= i < |pages| => PageText(pages, i, enableOcr, ocrDpi, ocr))
  }

  /** The first `n` texts, each followed by a newline. */
  function Lines(ts: seq<string>, n: nat): string
    requires n <= |ts|
  {
    if n == 0 then "" else Lines(ts, n - 1) + ts[n - 1] + "\n"
  }

  /** What `extract_text_from_pdf_filelike` returns for these pages. */
  function DocumentText(pages: seq<string>, enableOcr: bool, ocrDpi: int,
                        ocr: (nat, int) -> string): string
  {
    Lines(PageTexts(pages, enableOcr, ocrDpi, ocr), |pages|)
  }

  /** The page loop. */
  method ExtractTextFromPages(pages: seq<string>, enableOcr: bool, ocrDpi: int,
                              ocr: (nat, int) -> string) returns (text: string)
    ensures text == DocumentText(pages, enableOcr, ocrDpi, ocr)
  {
    ghost var ts := PageTexts(pages, enableOcr, ocrDpi, ocr);
    text := "";
    for i := 0 to |pages|
      invariant text == Lines(ts, i)
    {
      var pageText := pages[i];
      StripEmptyIffBlank(pageText);
      if enableOcr && Strip(pageText) == "" {
        pageText := ocr(i, ocrDpi);
      }
      assert pageText == ts[i];
      text := text + pageText + "\n";
    }
  }

  /** OCR replaces a page's text exactly when OCR is on and the page's own
      text strips to the empty string. */
  lemma OcrUsedIffBlank(pages: seq<string>, i: nat, enableOcr: bool, ocrDpi: int,
                        ocr: (nat, int) -> string)
    requires i < |pages|
    ensures enableOcr && Strip(pages[i]) == "" ==> PageText(pages, i, enableOcr, ocrDpi, ocr) == ocr(i, ocrDpi)
    ensures !(enableOcr && Strip(pages[i]) == "") ==> PageText(pages, i, enableOcr, ocrDpi, ocr) == pages[i]
  {
    StripEmptyIffBlank(pages[i]);
  }

  /** The lines only grow: the first `m` lines extend the first `n <= m`. */
  lemma {:induction false} LinesPrefix(ts: seq<string>, n: nat, m: nat)
    requires n <= m <= |ts|
    ensures |Lines(ts, n)| <= |Lines(ts, m)| && Lines(ts, m)[..|Lines(ts, n)|] == Lines(ts, n)
    decreases m - n
  {
    if n < m {
      LinesPrefix(ts, n, m - 1);
      PrefixOfExtension(Lines(ts, n), Lines(ts, m - 1), ts[m - 1] + "\n");
      assert Lines(ts, m) == Lines(ts, m - 1) + (ts[m - 1] + "\n");
    }
  }

  lemma PrefixOfExtension(p: string, d: string, e: string)
    requires |p| <= |d| && d[..|p|] == p
    ensures (d + e)[..|p|] == p
  {
    assert (d + e)[..|p|] == d[..|p|];
  }

  /** A line `q == p + c + "\n"` at the start of `d` puts `c` at offset `|p|`. */
  lemma LinePlacement(d: string, q: string, p: string, c: string)
    requires q == p + c + "\n" && |q| <= |d| && d[..|q|] == q
    ensures |p| + |c| < |d| && d[|p|..|p| + |c|] == c && d[|p| + |c|] == '\n'
  {
    forall i | 0 <= i < |c| ensures d[|p|..|p| + |c|][i] == c[i] {
      assert d[|p| + i] == d[..|q|][|p| + i] == q[|p| + i];
    }
    assert d[|p| + |c|] == d[..|q|][|p| + |c|] == q[|p| + |c|];
  }

  /** Text `k` sits right after the lines before it and is followed by a
      newline, in the first `m > k` lines. */
  lemma {:induction false} LineInLines(ts: seq<string>, k: nat, m: nat)
    requires k < m <= |ts|
    ensures |Lines(ts, k)| + |ts[k]| < |Lines(ts, m)|
    ensures Lines(ts, m)[|Lines(ts, k)|..|Lines(ts, k)| + |ts[k]|] == ts[k]
    ensures Lines(ts, m)[|Lines(ts, k)| + |ts[k]|] == '\n'
    decreases m
  {
    if m == k + 1 {
      LinePlacement(Lines(ts, m), Lines(ts, m), Lines(ts, k), ts[k]);
    } else {
      LineInLines(ts, k, m - 1);
      SliceOfExtension(Lines(ts, m - 1), ts[m - 1] + "\n", |Lines(ts, k)|, |Lines(ts, k)| + |ts[k]|);
      assert Lines(ts, m) == Lines(ts, m - 1) + (ts[m - 1] + "\n");
    }
  }

  lemma SliceOfExtension(d: string, e: string, a: nat, b: nat)
    requires a <= b < |d|
    ensures (d + e)[a..b] == d[a..b] && (d + e)[b] == d[b]
  {}

  /** Page `k`'s text sits in the document right after the texts of the
      pages before it, in page order, and is followed by a newline. */
  lemma PageInDocument(pages: seq<string>, k: nat, enableOcr: bool, ocrDpi: int,
                       ocr: (nat, int) -> string)
    requires k < |pages|
    ensures var ts := PageTexts(pages, enableOcr, ocrDpi, ocr);
      var d, off := DocumentText(pages, enableOcr, ocrDpi, ocr), |Lines(ts, k)|;
      && ts[k] == PageText(pages, k, enableOcr, ocrDpi, ocr)
      && off + |ts[k]| < |d| && d[off..off + |ts[k]|] == ts[k] && d[off + |ts[k]|] == '\n'
  {
    LineInLines(PageTexts(pages, enableOcr, ocrDpi, ocr), k, |pages|);
  }

  /** A page without embedded text, with OCR on, contributes its OCR text to
      the document at its place. */
  lemma OcrTextIncluded(pages: seq<string>, k: nat, ocrDpi: int, ocr: (nat, int) -> string)
    requires k < |pages| && IsBlank(pages[k])
    ensures var d := DocumentText(pages, true, ocrDpi, ocr);
      var off := |Lines(PageTexts(pages, true, ocrDpi, ocr), k)|;
      off + |ocr(k, ocrDpi)| < |d| && d[off..off + |ocr(k, ocrDpi)|] == ocr(k, ocrDpi)
  {
    PageInDocument(pages, k, true, ocrDpi, ocr);
  }

  lemma {:induction false} JoinWithSnoc(sep: string, xs: seq<string>, x: string)
    requires |xs| >= 1
    ensures JoinWith(sep, xs + [x]) == JoinWith(sep, xs) + sep + x
    decreases |xs|
  {
    if |xs| == 1 {
      assert (xs + [x])[1..] == [x];
    } else {
      assert (xs + [x])[1..] == xs[1..] + [x];
      JoinWithSnoc(sep, xs[1..], x);
    }
  }

  /** The lines are the texts joined with newlines, plus a final newline. */
  lemma {:induction false} LinesIsJoin(ts: seq<string>, n: nat)
    requires 1 <= n <= |ts|
    ensures Lines(ts, n) == JoinWith("\n", ts[..n]) + "\n"
    decreases n
  {
    if n == 1 {
      assert ts[..1] == [ts[0]];
    } else {
      LinesIsJoin(ts, n - 1);
      assert ts[..n] == ts[..n - 1] + [ts[n - 1]];
      JoinWithSnoc("\n", ts[..n - 1], ts[n - 1]);
    }
  }

  /** With OCR off a non-empty document is the pages' embedded texts joined
      with newlines plus a final newline, whatever the OCR engine would say. */
  lemma NoOcrIsJoin(pages: seq<string>, ocrDpi: int, ocr: (nat, int) -> string)
    requires |pages| >= 1
    ensures DocumentText(pages, false, ocrDpi, ocr) == JoinWith("\n", pages) + "\n"
  {
    assert PageTexts(pages, false, ocrDpi, ocr) == pages;
    LinesIsJoin(pages, |pages|);
    assert pages[..|pages|] == pages;
  }

  /** With OCR on, a document whose pages all carry text is the same as with
      OCR off. */
  lemma OcrIrrelevantWhenNoBlankPage(pages: seq<string>, ocrDpi: int, ocr: (nat, int) -> string)
    requires forall i :: 0 <= i < |pages| ==> !IsBlank(pages[i])
    ensures DocumentText(pages, true, ocrDpi, ocr) == DocumentText(pages, false, ocrDpi, ocr)
  {
    assert forall i :: 0 <= i < |pages| ==>
      PageTexts(pages, true, ocrDpi, ocr)[i] == PageTexts(pages, false, ocrDpi, ocr)[i];
    assert PageTexts(pages, true, ocrDpi, ocr) == PageTexts(pages, false, ocrDpi, ocr);
  }
}
