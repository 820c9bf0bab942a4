# PDF-to-audiobook bot: the conversion pipeline and the document handler

A Telegram bot takes an uploaded PDF and returns an MP3 that reads its text aloud. This project models the two parts of `bot.py` that hold real logic:

- **The conversion** (`pdf_to_audio`):
  - the page texts are concatenated, each followed by a newline;
  - a blank result is refused with a `ValueError` saying the PDF is probably a scanned image;
  - whitespace is collapsed with `' '.join(text.split())`;
  - the text is cut into 4000-character chunks, and only the first chunk is synthesized.
- **The handler** (`handle_document`):
  - non-PDF uploads are refused;
  - a standing status message is posted and then edited through the phases "downloaded", "converting" and "sending";
  - on success the audio is sent under the upload's name with `.mp3`, the status message is deleted and an "Enjoy" reply follows;
  - on failure the status message is edited to an error text, which depends on whether a `ValueError` was raised;
  - the temporary directory is removed on every exit.

Every function here is pure, so the model is deterministic: the same document and call outcomes always give the same trace.

Modules, one file each:

| file | module | what it holds |
|---|---|---|
| `failures.dfy` | `Failures` | Python exceptions as data (`ValueError` vs any other `Exception`), `Outcome`, `Result`, `Option` |
| `text.dfy` | `Text` | `str.split()`, `' '.join`, `str.strip()` and the collapsed-whitespace form |
| `extraction.dfy` | `Extraction` | the page loop that builds `full_text` |
| `chunking.dfy` | `Chunking` | the chunk list comprehension and the choice of the text to synthesize |
| `filenames.dfy` | `FileNames` | POSIX `os.path.splitext` and the `.mp3` name |
| `conversion.dfy` | `Conversion` | `pdf_to_audio` as one function from the page texts and the synthesis outcome to a `Result` |
| `handler.dfy` | `Handler` | `handle_document` as a function from the document and the outcome of every awaited call to a trace of events |

The handler model works as follows.
- **Call outcomes.** Every outside call is an input: the Telegram replies and edits, `get_file`, `download_to_drive`, the synthesis and `send_audio`. `Calls` has one `Outcome` field (returns, or raises an exception) per call site, except that the two status edits in the exception handlers (bot.py:137 and bot.py:141) share the field `editError`, because at most one of them runs.
- **The `try` block** is the list `Handler.Steps`. It holds 10 steps, and `Handler.RunSteps` runs them until the first one raises:
  - 0 `get_file`
  - 1 joining the temporary directory with the file name (raises `TypeError` when Telegram gives no name)
  - 2 the download
  - 3 the "downloaded" edit
  - 4 the "converting" edit
  - 5 the conversion
  - 6 the "sending" edit
  - 7 sending the audio
  - 8 deleting the status message
  - 9 the "Enjoy" reply
- **After the `try` block**, `Handler.ReportOutcome` models the exception handlers and the end of the `with` block.
- **Traces.** The trace records what the handler did, in order: status message posted, edited and deleted, temporary directory created and removed, download, conversion, audio sent, replies. A `Run` also records the exception that escaped the handler, if any.

Behaviour of the code worth knowing:
- **Size warning.** The warning for text over 4000 characters is only logged (bot.py:64-65); the user never sees it. The model keeps the condition as `Speech.truncated`.
- **Error kinds.** The exception handlers tell apart only `ValueError`, whose message is shown after "❌ Error: ", and every other exception, which gets a fixed "unexpected error" text (bot.py:135-142). A parser or synthesis failure therefore shows its message only if it is a `ValueError`.
- **"Enjoy" reply failure.** The status message is deleted before the "Enjoy" reply is sent. If that reply raises, the exception handler still edits the already-deleted status message, so on that one failure path the trace holds both the deletion and the error edit. `Handler.FailureReported` states this exactly: the status message is deleted on a failed run only when step 9 raised.
- **Failing error edit.** If the error edit itself raises, that exception escapes the handler after the temporary directory is removed, and no error text is shown.

## Model

| member | source | states |
|---|---|---|
| Text.Join | bot.py:55 | `' '.join(words)`; its properties are stated by Text.SplitJoin (splitting a join gives the words back) and Text.JoinIsNormal (a join of words is in collapsed form) |
| Text.Normalize | bot.py:55 | `' '.join(full_text.split())`; its properties are stated by Text.NormalizeKeepsWords, Text.NormalizeIsNormal, Text.NormalizeKeepsLetters, Text.NormalizeFixedPoints, Text.NormalizeIdempotent and Text.NormalizeEmptyIffBlank |
| Text.WordLength | bot.py:55 | the length of the longest whitespace-free run a string starts with: no whitespace before it, whitespace or the end right after it |
| Text.Split | bot.py:55 | every word `split()` returns is non-empty and contains no whitespace |
| Text.TrimStart | bot.py:50 | `lstrip()` removes a whitespace-only prefix and leaves a suffix that is empty or starts with non-whitespace |
| Text.TrimEnd | bot.py:50 | `rstrip()` removes a whitespace-only suffix and leaves a prefix that is empty or ends with non-whitespace |
| Text.Strip | bot.py:50 | `strip()` is empty exactly when the string is empty or all whitespace |
| Text.SplitAtWhitespace | bot.py:55 | whitespace separates words: splitting around any whitespace character gives the words before it followed by the words after it, so no word spans it |
| Text.SplitKeepsLetters | bot.py:55 | the words, concatenated, are exactly the non-whitespace characters of the input in order |
| Text.SplitEmptyIffBlank | bot.py:55 | `split()` returns no words exactly when the input is all whitespace |
| Text.SplitJoin | bot.py:55 | splitting a single-space join of words gives back the same words |
| Text.NormalizeKeepsWords | bot.py:55 | the normalized text has the same word sequence as the input |
| Text.NormalizeIsNormal | bot.py:55 | normalized text has no leading, trailing or repeated whitespace, and its only whitespace is single spaces between words |
| Text.NormalizeKeepsLetters | bot.py:55 | normalization removes whitespace only: the non-whitespace characters and their order are unchanged |
| Text.NormalizeFixedPoints | bot.py:55 | a text is its own normalization if and only if it is in collapsed form |
| Text.NormalizeIdempotent | bot.py:55 | normalizing twice gives the same text as normalizing once |
| Text.NormalizeEmptyIffBlank | bot.py:50-55 | the normalized text is empty exactly when the extracted text is blank |
| Extraction.Contribution | bot.py:46-48 | what one page adds to the text: its text and a newline, or nothing when the text is `None` or empty; Extraction.ExtractText proves the loop adds exactly this per page |
| Extraction.ConcatPages | bot.py:43-48 | the text after all pages, their contributions in page order; its properties are stated by Extraction.ExtractText, Extraction.ConcatPagesAppend, Extraction.ConcatPagesLetters, Extraction.ConcatPagesWords and Extraction.ConcatPagesBlank |
| Extraction.ExtractText | bot.py:39-48 | the page loop's text is each page's contribution in page order: the page text plus one newline, or nothing for a `None` or empty page |
| Extraction.ConcatPagesAppend | bot.py:44-48 | extracting two runs of pages gives the first run's text followed by the second's |
| Extraction.ConcatPagesLetters | bot.py:44-48 | the accumulated text has exactly the non-whitespace characters of all pages, in page order; the separators add only whitespace |
| Extraction.ConcatPagesWords | bot.py:44-48 | the accumulated text's words are the words of each page in page order; the newline after a page keeps its last word apart from the next page's first |
| Extraction.ConcatPagesBlank | bot.py:43-50 | the accumulated text is blank exactly when every page yields `None`, empty or whitespace-only text |
| Chunking.Chunks | bot.py:60 | no chunks exactly for the empty text; the chunk count is ceil(len/4000); every chunk has 1 to 4000 characters; all but the last have exactly 4000 |
| Chunking.ChunkAt | bot.py:60 | chunk `k` is the slice of the text starting at `k*4000`, cut at 4000 characters or the end |
| Chunking.ChunksUnfold | bot.py:60 | a text longer than 4000 characters chunks into its first 4000 characters followed by the chunks of the rest |
| Chunking.ChunksConcat | bot.py:60 | concatenating the chunks in order reproduces the text exactly |
| Chunking.IsLarge | bot.py:64 | the large-text warning condition (more than one chunk) holds exactly when the text is longer than 4000 characters |
| Chunking.TextToConvert | bot.py:64-68 | the text handed to synthesis is the prefix of the cleaned text of length min(len, 4000) |
| Chunking.ExactlyOneChunk | bot.py:60-68 | a 4000-character text gives one chunk, no warning, and is converted whole |
| Chunking.OverOneChunk | bot.py:60-68 | a text of 4001 or more characters gives several chunks and the warning, and its characters past 4000 are not converted |
| Chunking.EightThousandOne | bot.py:60-68 | an 8001-character text gives three chunks, and 4001 characters are not converted |
| FileNames.LastIndex | bot.py:118 | `rfind` returns the last index holding the character, or -1 when there is none |
| FileNames.SplitExt | bot.py:118 | `splitext` splits a name into a root and an extension that concatenate back to the name; the extension is empty or a dot followed by no dot or slash |
| FileNames.AudioName | bot.py:118 | the audio file name, the root of `splitext` plus ".mp3"; FileNames.AudioNameOfPdf states that "name.pdf" becomes "name.mp3" |
| FileNames.SplitExtOfStemAndExtension | bot.py:118 | a name made of a stem with a non-dot base and a dot-free extension splits back into exactly that stem and extension |
| FileNames.AudioNameOfPdf | bot.py:118 | "name.pdf" gives the audio name "name.mp3" |
| FileNames.SplitExtWithoutDot | bot.py:118 | a name without a dot has an empty extension |
| Conversion.CleanedText | bot.py:43-55 | the whitespace-collapsed text of the pages; Conversion.CleanedTextKeepsWords states its form, its words and its letters |
| Conversion.PdfToAudio | bot.py:39-72 | an unreadable PDF raises the parser's error; a blank text raises `ValueError` with the scanned-image message; otherwise a synthesis failure raises its error; success happens exactly when none of these occur, and then the spoken text is the non-empty prefix of the cleaned text of length min(len, 4000), truncated exactly when the cleaned text is longer than 4000 characters |
| Conversion.NoTextIffBlankPages | bot.py:43-51 | the scanned-image `ValueError` is raised exactly when every page yields no text or only whitespace |
| Conversion.CleanedTextKeepsWords | bot.py:43-55 | the cleaned text is in collapsed form, its words are the pages' words in page order, and it holds exactly the pages' non-whitespace characters in page order |
| Conversion.SpokenIsFirstChunk | bot.py:60-68 | for a text that is not blank and a synthesis that returns, the spoken text is the whole cleaned text when it fits in one chunk, and the first chunk with the truncation flag otherwise |
| Handler.HandleDocument | bot.py:94-142 | `handle_document`; its behaviour is stated by Handler.NonPdfRejected, Handler.NotPdfReplyIff, Handler.StatusPostFails, Handler.TempDirLifecycle, Handler.SuccessTrace, Handler.EnjoyIffSuccess, Handler.FailureReported and Handler.ScannedPdfReported |
| Handler.Steps | bot.py:110-133 | the calls of the `try` block in source order with the events each causes; Handler.StepsPass and Handler.EffectsBefore state which steps pass and which events the steps before a failure cause |
| Handler.NameCheck | bot.py:113 | joining the temporary directory with the file name raises exactly when the document has no name |
| Handler.ReportOutcome | bot.py:109-142 | the `with` block around the `try` block; Handler.ReportedDirLifecycle and Handler.ReportedReplies state that it adds the status message and the directory's creation first, the directory's removal last, and no reply |
| Handler.ErrorStatus | bot.py:135-142 | the error text shown for a caught exception: "❌ Error: " + message for a `ValueError`, the fixed unexpected-error text otherwise; Handler.FailureReported states that this is the one error edit of a failed run |
| Handler.RunSteps | bot.py:110-133 | the `try` block completes exactly when no step raises, and then has every step's effects |
| Handler.RunStepsStops | bot.py:110-133 | when step `k` is the first to raise, the `try` block has the effects of the steps before `k` and stops with step `k`'s exception |
| Handler.Handled | bot.py:135-142 | the exception handlers add at most one event, the edit of the status message to the error text of the caught exception, and only when there was a failure and the edit returned; an exception escapes exactly when the edit raised, and it is the edit's own exception |
| Handler.ReportedDirLifecycle | bot.py:106-142 | whatever the `try` block did, the trace opens with the status message and the directory's creation and ends with its removal, each once |
| Handler.NonPdfRejected | bot.py:101-103 | a document not declared `application/pdf` gets at most the "Please send a PDF file." reply: no status message, no download, no conversion; if that reply raises, its exception escapes |
| Handler.StatusPostFails | bot.py:101-106 | for a PDF whose "received" status message cannot be posted, that call's exception escapes and the trace is empty: no directory, download, conversion or reply |
| Handler.NotPdfReplyIff | bot.py:101-103 | the "Please send a PDF file." reply appears exactly when the document is not declared a PDF and the reply goes through |
| Handler.TempDirLifecycle | bot.py:106-142 | the temporary directory is created exactly when the status message was posted for a PDF; it is then created once, right after the status message, and removed once, as the last event, on every path |
| Handler.AllPassTrace | bot.py:106-133 | when every step returns, the trace is the status message, the directory, the eight success events in order and the directory's removal, with nothing escaping |
| Handler.SuccessTrace | bot.py:106-133 | when every call returns and the conversion succeeds, the trace is: status posted, directory created, download, "downloaded", "converting", conversion, "sending", audio sent as stem + ".mp3", status deleted, "Enjoy" reply, directory removed; nothing escapes |
| Handler.EnjoyIffSuccess | bot.py:101-133 | the "Enjoy" reply appears exactly when the document is a named PDF, every call returns and the conversion succeeds; when it appears, nothing escapes |
| Handler.FailureReported | bot.py:109-142 | when step `k` is the first to raise, the trace is: the success events before `k`, then exactly one error edit of the status message (the `ValueError` message or the generic text), then the directory removal; no "Enjoy" reply; the status message is deleted only if the "Enjoy" reply was the step that raised; the error edit's own exception escapes if it raises |
| Handler.ConversionErrorTrace | bot.py:106-137 | a conversion raising a `ValueError` after the calls before it returned ends with its message after "❌ Error: " in the status message, and nothing later happens |
| Handler.ScannedPdfReported | bot.py:106-137 | a PDF whose pages hold no text ends with the status message showing "❌ Error: " + the scanned-image message; nothing is converted or sent |

## Left out

- PDF parsing by pdfplumber: the document is given as its per-page texts, or as a parse failure carrying the exception it raised. An exception raised by a single page's `extract_text` is not modelled.
- Speech synthesis and saving the file (gTTS, bot.py:71-72) are one outcome, `Calls.tts`, that returns or raises. It does not depend on the text, and the language is always the default `'en'`.
- The Telegram calls are outcomes and trace events only. Editing an already-deleted message is an outcome like any other.
- Running the conversion in an executor (bot.py:122-124) is one sequential step. The concurrency does not change the order of events within a request.
- Logging, `print`, loading `BOT_TOKEN` from the environment (bot.py:14-27), `main` with its timeouts and handler registration (bot.py:145-166), and the `/start` greeting (bot.py:76-91) are outside the modelled core.
- Text.IsWhitespace: covers the ASCII whitespace `str.split()` uses (space, tab, newline, carriage return, vertical tab, form feed, and 0x1C-0x1F). The other Unicode whitespace characters Python also splits on are left out.
- `os.path.join` with an absolute file name, which would discard the temporary directory, is not modelled. Only a missing file name is: it raises `TypeError`, shown as the generic error.
- Creating and removing the temporary directory are taken to succeed. An OS error there is not modelled.
- Exceptions outside `Exception` (such as task cancellation), which the handler does not catch, are not modelled.
