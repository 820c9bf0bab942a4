/** Page-by-page text extraction: the loop that builds `full_text` from the
    text pdfplumber returns for each page (`None` when a page has none). */
module Extraction {
  import opened Failures
  import opened Text

  /** The text a page yields, `None` read as empty. */
  function PageText(page: Option<string>): string {
    match page
    case None => ""
    case Some(t) => t
  }

  /** What one page adds to `full_text`: its text and a newline, or nothing
      when the text is falsy (`None` or empty). */
  function Contribution(page: Option<string>): string {
    match page
    case None => ""
    case Some(t) => if t == "" then "" else t + "\n"
  }

  /** Each page's contribution, in page order. */
  function Contributions(pages: seq<Option<string>>): seq<string> {
    seq(|pages|, i requires 0 <= i < |pages| => Contribution(pages[i]))
  }

  /** The text accumulated after the pages in `pages`, first page first. */
  function ConcatPages(pages: seq<Option<string>>): string {
    Flatten(Contributions(pages))
  }

  /** The extraction loop, one page at a time. */
  method ExtractText(pages: seq<Option<string>>) returns (fullText: string)
    ensures fullText == ConcatPages(pages)
  {
    fullText := "";
    var n := 0;
    while n < |pages|
      invariant 0 <= n <= |pages|
      invariant fullText == ConcatPages(pages[..n])
    {
      var pageText := pages[n];
      if pageText.Some? && pageText.value != "" {
        fullText := fullText + pageText.value + "\n";
      }
      assert pages[..n + 1] == pages[..n] + [pages[n]];
      ConcatPagesAppend(pages[..n], [pages[n]]);
      ConcatPagesCons([pages[n]]);
      n := n + 1;
    }
    assert pages[..n] == pages;
  }

  /** Pages extracted in two batches give the two texts one after the other. */
  lemma ConcatPagesAppend(a: seq<Option<string>>, b: seq<Option<string>>)
    ensures ConcatPages(a + b) == ConcatPages(a) + ConcatPages(b)
  {
    assert Contributions(a + b) == Contributions(a) + Contributions(b);
    FlattenAppend(Contributions(a), Contributions(b));
  }

  /** The first page's contribution comes first. */
  lemma ConcatPagesCons(pages: seq<Option<string>>)
    requires |pages| > 0
    ensures ConcatPages(pages) == Contribution(pages[0]) + ConcatPages(pages[1..])
  {
    assert Contributions(pages)[1..] == Contributions(pages[1..]);
  }

  /** The accumulated text holds the non-whitespace characters of all pages,
      in page order: the page separators add only whitespace. */
  lemma {:induction false} ConcatPagesLetters(pages: seq<Option<string>>)
    ensures Letters(ConcatPages(pages)) == Flatten(seq(|pages|, i requires 0 <= i < |pages| => Letters(PageText(pages[i]))))
    decreases |pages|
  {
    if |pages| > 0 {
      var first := pages[0];
      var rest := pages[1..];
      ConcatPagesCons(pages);
      ConcatPagesLetters(rest);
      LettersAppend(Contribution(first), ConcatPages(rest));
      if first.Some? && first.value != "" {
        LettersAppend(first.value, "\n");
        assert Letters("\n") == "";
      }
      var ls := seq(|pages|, i requires 0 <= i < |pages| => Letters(PageText(pages[i])));
      assert ls[1..] == seq(|rest|, i requires 0 <= i < |rest| => Letters(PageText(rest[i])));
    }
  }

  /** The accumulated text has the words of all pages, in page order: the
      newline after each page keeps its last word apart from the next page's
      first. */
  lemma {:induction false} ConcatPagesWords(pages: seq<Option<string>>)
    ensures Split(ConcatPages(pages)) == Flatten(seq(|pages|, i requires 0 <= i < |pages| => Split(PageText(pages[i]))))
    decreases |pages|
  {
    if |pages| > 0 {
      var first := pages[0];
      var rest := pages[1..];
      ConcatPagesCons(pages);
      ConcatPagesWords(rest);
      if first.Some? && first.value != "" {
        assert Contribution(first) + ConcatPages(rest) == first.value + ['\n'] + ConcatPages(rest);
        SplitAtWhitespace(first.value, '\n', ConcatPages(rest));
      } else {
        assert Contribution(first) + ConcatPages(rest) == ConcatPages(rest);
        assert Split(PageText(first)) == [];
      }
      var ws := seq(|pages|, i requires 0 <= i < |pages| => Split(PageText(pages[i])));
      assert ws[1..] == seq(|rest|, i requires 0 <= i < |rest| => Split(PageText(rest[i])));
    }
  }

  /** The accumulated text is blank exactly when every page yields no text or
      only whitespace. */
  lemma {:induction false} ConcatPagesBlank(pages: seq<Option<string>>)
    ensures AllWhitespace(ConcatPages(pages)) <==>
      forall i :: 0 <= i < |pages| ==> AllWhitespace(PageText(pages[i]))
    decreases |pages|
  {
    if |pages| > 0 {
      var first := pages[0];
      var rest := pages[1..];
      ConcatPagesCons(pages);
      ConcatPagesBlank(rest);
      var c := Contribution(first);
      AllWhitespaceAppend(c, ConcatPages(rest));
      if first.Some? && first.value != "" {
        AllWhitespaceAppend(first.value, "\n");
      }
      assert AllWhitespace(c) <==> AllWhitespace(PageText(first));
      assert forall i :: 0 < i < |pages| ==> pages[i] == rest[i - 1];
    }
  }
}
