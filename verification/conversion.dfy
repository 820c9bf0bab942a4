/** The conversion of one PDF into speech: extract the page texts, refuse a
    blank result, collapse whitespace, keep the first chunk, synthesize. */
module Conversion {
  import opened Failures
  import opened Text
  import opened Extraction
  import opened Chunking

  /** The PDF as the parser sees it: unreadable (opening it raised), or the
      text of each page in order, `None` for a page without a text layer. */
  datatype Pdf = Unreadable(error: Exception) | Pages(texts: seq<Option<string>>)

  /** What was synthesized, and whether the text was cut to its first chunk
      (the condition under which a warning is logged). */
  datatype Speech = Speech(spoken: string, truncated: bool)

  const NoTextMessage: string :=
    "No text could be extracted from the PDF. It might be a scanned image-based PDF."

  /** The whitespace-collapsed text of the pages. */
  function CleanedText(pages: seq<Option<string>>): string {
    Normalize(ConcatPages(pages))
  }

  /** `pdf_to_audio`, with the synthesis step's outcome `tts` given. */
  function PdfToAudio(pdf: Pdf, tts: Outcome): (r: Result<Speech>)
    ensures pdf.Unreadable? ==> r == Err(pdf.error)
    ensures pdf.Pages? && AllWhitespace(ConcatPages(pdf.texts)) ==>
      r == Err(ValueError(NoTextMessage))
    ensures pdf.Pages? && !AllWhitespace(ConcatPages(pdf.texts)) && tts.Raise? ==>
      r == Err(tts.error)
    ensures r.Ok? <==> pdf.Pages? && !AllWhitespace(ConcatPages(pdf.texts)) && tts.Pass?
    ensures r.Ok? ==>
      var cleaned := CleanedText(pdf.texts);
      && 0 < |r.value.spoken| == Min(|cleaned|, ChunkSize)
      && r.value.spoken == cleaned[..|r.value.spoken|]
      && (r.value.truncated <==> |cleaned| > ChunkSize)
  {
    match pdf
    case Unreadable(e) => Err(e)
    case Pages(texts) =>
      var fullText := ConcatPages(texts);
      if Strip(fullText) == "" then Err(ValueError(NoTextMessage))
      else
        var cleaned := Normalize(fullText);
        assert cleaned != "" by { NormalizeEmptyIffBlank(fullText); }
        var text := TextToConvert(cleaned);
        match tts
        case Raise(e) => Err(e)
        case Pass => Ok(Speech(text, IsLarge(cleaned)))
  }

  /** The conversion refuses the PDF with the scanned-image message exactly when
      every page yields no text or only whitespace, and goes on otherwise. */
  lemma NoTextIffBlankPages(texts: seq<Option<string>>, tts: Outcome)
    requires tts.Pass?
    ensures PdfToAudio(Pages(texts), tts) == Err(ValueError(NoTextMessage)) <==>
      forall i :: 0 <= i < |texts| ==> AllWhitespace(PageText(texts[i]))
  {
    ConcatPagesBlank(texts);
  }

  /** The cleaned text is the pages' words in page order, separated by single
      spaces: nothing but whitespace is lost or added, and no word of one page
      is glued to a word of the next. */
  lemma CleanedTextKeepsWords(texts: seq<Option<string>>)
    ensures IsNormal(CleanedText(texts))
    ensures Split(CleanedText(texts)) ==
      Flatten(seq(|texts|, i requires 0 <= i < |texts| => Split(PageText(texts[i]))))
    ensures Letters(CleanedText(texts)) ==
      Flatten(seq(|texts|, i requires 0 <= i < |texts| => Letters(PageText(texts[i]))))
  {
    NormalizeIsNormal(ConcatPages(texts));
    NormalizeKeepsWords(ConcatPages(texts));
    NormalizeKeepsLetters(ConcatPages(texts));
    ConcatPagesWords(texts);
    ConcatPagesLetters(texts);
  }

  /** What is synthesized is the cleaned text itself when it fits in one
      chunk, and its first chunk otherwise. */
  lemma SpokenIsFirstChunk(texts: seq<Option<string>>, tts: Outcome)
    requires tts.Pass? && !AllWhitespace(ConcatPages(texts))
    ensures var cleaned := CleanedText(texts);
      var speech := PdfToAudio(Pages(texts), tts).value;
      && (|cleaned| <= ChunkSize ==> speech.spoken == cleaned && !speech.truncated)
      && (|cleaned| > ChunkSize ==> speech.spoken == Chunks(cleaned)[0] && speech.truncated)
  {
    var cleaned := CleanedText(texts);
    if |cleaned| > ChunkSize {
      ChunkAt(cleaned, 0);
    }
  }
}
