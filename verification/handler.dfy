/** The document handler: what the user sees, and in which order, when a file
    arrives. Every outside call (Telegram, the download, speech synthesis) is
    represented only by whether it returned or raised; the handler's effects
    are recorded as a trace of events. */
module Handler {
  import opened Failures
  import Conversion
  import Text
  import Extraction
  import FileNames

  const PdfMimeType: string := "application/pdf"

  const NotPdfReply: string := "Please send a PDF file."

  /** The emoji each status text and reply starts with. */
  const Inbox: char := '\U{1F4E5}'
  const CheckMark: char := '\U{2705}'
  const Speaker: char := '\U{1F50A}'
  const Outbox: char := '\U{1F4E4}'
  const Headphones: char := '\U{1F3A7}'
  const CrossMark: char := '\U{274C}'

  const ReceivedStatus: string := [Inbox] + " PDF received. Starting processing... This may take a while."
  const DownloadedStatus: string := [CheckMark] + " PDF downloaded. Extracting text..."
  const ConvertingStatus: string := [Speaker] + " Converting text to speech..."
  const SendingStatus: string := [Outbox] + " Sending audio file..."
  const EnjoyReply: string := [Headphones] + " Enjoy your audiobook! Send another PDF if you like."
  const ErrorPrefix: string := [CrossMark] + " Error: "
  const UnexpectedStatus: string :=
    [CrossMark] + " An unexpected error occurred during processing. Please try again with a different PDF."

  /** `os.path.join(tmp_dir, None)` raises a `TypeError`. */
  const MissingNameError: Exception :=
    OtherError("join() argument must be str, bytes, or os.PathLike object, not 'NoneType'")

  /** The incoming document: declared media type, file name (both optional in
      Telegram) and content. */
  datatype Document = Document(mimeType: Option<string>, fileName: Option<string>, pdf: Conversion.Pdf)

  /** How each awaited call turns out, one field per call site. */
  datatype Calls = Calls(
    replyNotPdf: Outcome,     // reply to a non-PDF upload
    postStatus: Outcome,      // the "received" status message
    getFile: Outcome,         // get_file
    download: Outcome,        // download_to_drive
    editDownloaded: Outcome,
    editConverting: Outcome,
    tts: Outcome,             // speech synthesis and saving the audio file
    editSending: Outcome,
    sendAudio: Outcome,       // opening and sending the audio file
    deleteStatus: Outcome,
    replyEnjoy: Outcome,
    editError: Outcome)       // the status edit in the exception handlers

  /** Effects of the handler, in the order they happen. */
  datatype Event =
    | Replied(text: string)         // a new message in the chat
    | StatusPosted(text: string)    // the standing status message is created
    | StatusEdited(text: string)
    | StatusDeleted
    | TempDirCreated
    | TempDirRemoved
    | Downloaded
    | Converted
    | AudioSent(title: string)

  /** The handler's trace and the exception that escaped it, if any. */
  datatype Run = Run(trace: seq<Event>, escaped: Option<Exception>)

  /** One awaited call inside the `try` block and the events it causes when it
      returns. */
  datatype Step = Step(outcome: Outcome, effect: seq<Event>)

  /** Events of the `try` block and the exception it stopped on, if any. */
  datatype Attempt = Attempt(events: seq<Event>, failure: Option<Exception>)

  /** Effects of all the steps, in order. */
  function Effects(steps: seq<Step>): seq<Event> {
    if |steps| == 0 then [] else steps[0].effect + Effects(steps[1..])
  }

  /** Step `k` is the first one that raises. */
  predicate FirstRaise(steps: seq<Step>, k: int) {
    && 0 <= k < |steps|
    && steps[k].outcome.Raise?
    && forall j :: 0 <= j < k ==> steps[j].outcome.Pass?
  }

  /** Runs the steps until one raises. */
  function RunSteps(steps: seq<Step>): (a: Attempt)
    ensures a.failure.None? <==> forall i :: 0 <= i < |steps| ==> steps[i].outcome.Pass?
    ensures a.failure.None? ==> a.events == Effects(steps)
  {
    if |steps| == 0 then Attempt([], None)
    else if steps[0].outcome.Raise? then Attempt([], Some(steps[0].outcome.error))
    else
      var rest := RunSteps(steps[1..]);
      assert forall i :: 0 < i < |steps| ==> steps[i] == steps[1..][i - 1];
      Attempt(steps[0].effect + rest.events, rest.failure)
  }

  /** When step `k` is the first to raise, the run has the effects of the
      steps before it and stops with its exception. */
  lemma {:induction false} RunStepsStops(steps: seq<Step>, k: int)
    requires FirstRaise(steps, k)
    ensures RunSteps(steps) == Attempt(Effects(steps[..k]), Some(steps[k].outcome.error))
    decreases k
  {
    if k > 0 {
      var tail := steps[1..];
      assert forall j :: 0 <= j < k - 1 ==> tail[j] == steps[j + 1];
      RunStepsStops(tail, k - 1);
      assert steps[..k][1..] == tail[..k - 1];
    }
  }

  /** The title of the audio file sent back: the upload's name with ".mp3". */
  function AudioTitle(doc: Document): string {
    match doc.fileName
    case Some(name) => FileNames.AudioName(name)
    case None => ""
  }

  /** Joining the temporary directory with the file name raises when the
      document has no name. */
  function NameCheck(doc: Document): (o: Outcome)
    ensures o.Pass? <==> doc.fileName.Some?
  {
    if doc.fileName.Some? then Pass else Raise(MissingNameError)
  }

  /** The conversion seen as a step: it returns, or raises what it raised. */
  function ConvertOutcome(doc: Document, calls: Calls): (o: Outcome)
    ensures o.Pass? <==> Conversion.PdfToAudio(doc.pdf, calls.tts).Ok?
    ensures o.Raise? ==> Conversion.PdfToAudio(doc.pdf, calls.tts) == Err(o.error)
  {
    match Conversion.PdfToAudio(doc.pdf, calls.tts)
    case Ok(_) => Pass
    case Err(e) => Raise(e)
  }

  /** What the `try` block needs to know about the document: whether its name
      can be joined to the temporary directory, how its conversion turns out,
      and the title of the audio file. */
  datatype Prepared = Prepared(naming: Outcome, conversion: Outcome, title: string)

  function Prepare(doc: Document, calls: Calls): Prepared {
    Prepared(NameCheck(doc), ConvertOutcome(doc, calls), AudioTitle(doc))
  }

  /** The `try` block, call by call. */
  function Steps(calls: Calls, p: Prepared): seq<Step> {
    [ Step(calls.getFile, []),
      Step(p.naming, []),
      Step(calls.download, [Downloaded]),
      Step(calls.editDownloaded, [StatusEdited(DownloadedStatus)]),
      Step(calls.editConverting, [StatusEdited(ConvertingStatus)]),
      Step(p.conversion, [Converted]),
      Step(calls.editSending, [StatusEdited(SendingStatus)]),
      Step(calls.sendAudio, [AudioSent(p.title)]),
      Step(calls.deleteStatus, [StatusDeleted]),
      Step(calls.replyEnjoy, [Replied(EnjoyReply)]) ]
  }

  /** The status text the exception handlers show: the message of a
      `ValueError`, a fixed text for anything else. */
  function ErrorStatus(e: Exception): string {
    match e
    case ValueError(m) => ErrorPrefix + m
    case OtherError(_) => UnexpectedStatus
  }

  /** An error text, as opposed to a progress text: it starts with the cross mark. */
  predicate IsErrorText(t: string) {
    |t| > 0 && t[0] == CrossMark
  }

  /** `handle_document`. */
  function HandleDocument(doc: Document, calls: Calls): Run {
    if doc.mimeType != Some(PdfMimeType) then
      match calls.replyNotPdf
      case Raise(e) => Run([], Some(e))
      case Pass => Run([Replied(NotPdfReply)], None)
    else
      match calls.postStatus
      case Raise(e) => Run([], Some(e))
      case Pass => Attempted(calls, Prepare(doc, calls))
  }

  /** The `with` block for a PDF whose status message was posted. */
  function Attempted(calls: Calls, p: Prepared): Run {
    ReportOutcome(RunSteps(Steps(calls, p)), calls.editError)
  }

  /** The `with` block after the `try` block ran: the status message and the
      temporary directory come first; a failure is shown by editing the status
      message; the directory is removed last. */
  function ReportOutcome(attempt: Attempt, editError: Outcome): Run {
    var handled := Handled(attempt.failure, editError);
    Run([StatusPosted(ReceivedStatus), TempDirCreated] + attempt.events + handled.events + [TempDirRemoved],
        handled.failure)
  }

  /** The exception handlers: a failure is shown by editing the status
      message to its error text; if that edit raises, its exception
      escapes. */
  function Handled(failure: Option<Exception>, editError: Outcome): (h: Attempt)
    ensures h.events == [] || (failure.Some? && h.events == [StatusEdited(ErrorStatus(failure.value))])
    ensures h.events != [] <==> failure.Some? && editError.Pass?
    ensures h.failure.Some? <==> failure.Some? && editError.Raise?
    ensures h.failure.Some? ==> h.failure.value == editError.error
  {
    match failure
    case None => Attempt([], None)
    case Some(e) =>
      match editError
      case Raise(e') => Attempt([], Some(e'))
      case Pass => Attempt([StatusEdited(ErrorStatus(e))], None)
  }

  /** The events of a successful run between the status message and the
      removal of the temporary directory, in order. */
  function SuccessEvents(title: string): seq<Event> {
    [ Downloaded,
      StatusEdited(DownloadedStatus),
      StatusEdited(ConvertingStatus),
      Converted,
      StatusEdited(SendingStatus),
      AudioSent(title),
      StatusDeleted,
      Replied(EnjoyReply) ]
  }

  lemma {:induction false} EffectsAppend(a: seq<Step>, b: seq<Step>)
    ensures Effects(a + b) == Effects(a) + Effects(b)
    decreases |a|
  {
    if |a| == 0 {
      assert a + b == b;
    } else {
      assert (a + b)[1..] == a[1..] + b;
      EffectsAppend(a[1..], b);
    }
  }

  /** Steps that each cause exactly one event cause those events, in order. */
  lemma {:induction false} EffectsOfSingles(steps: seq<Step>)
    requires forall i :: 0 <= i < |steps| ==> |steps[i].effect| == 1
    ensures Effects(steps) == seq(|steps|, i requires 0 <= i < |steps| => steps[i].effect[0])
    decreases |steps|
  {
    if |steps| > 0 {
      EffectsOfSingles(steps[1..]);
      assert steps[0].effect == [steps[0].effect[0]];
    }
  }

  /** Number of success events caused by the steps before step `k`. */
  function Reached(k: nat): nat {
    if k < 2 then 0 else k - 2
  }

  /** A prefix of steps that each cause one event causes a prefix of the events. */
  lemma EffectsPrefixOfSingles(steps: seq<Step>, n: nat)
    requires n <= |steps|
    requires forall i :: 0 <= i < |steps| ==> |steps[i].effect| == 1
    ensures |Effects(steps)| == |steps|
    ensures Effects(steps[..n]) == Effects(steps)[..n]
  {
    EffectsOfSingles(steps);
    EffectsOfSingles(steps[..n]);
  }

  /** The steps after the first two cause the success events. */
  lemma EffectsAfterOpening(calls: Calls, p: Prepared)
    ensures Effects(Steps(calls, p)[2..]) == SuccessEvents(p.title)
  {
    var rest := Steps(calls, p)[2..];
    EffectsOfSingles(rest);
    var events := seq(|rest|, i requires 0 <= i < |rest| => rest[i].effect[0]);
    assert events == SuccessEvents(p.title) by {
      assert events[0] == Downloaded;
      assert events[1] == StatusEdited(DownloadedStatus);
      assert events[2] == StatusEdited(ConvertingStatus);
      assert events[3] == Converted;
      assert events[4] == StatusEdited(SendingStatus);
      assert events[5] == AudioSent(p.title);
      assert events[6] == StatusDeleted;
      assert events[7] == Replied(EnjoyReply);
    }
  }

  /** The steps before step `k` cause the first `k - 2` success events (the
      first two steps cause none). */
  lemma EffectsBefore(calls: Calls, p: Prepared, k: nat)
    requires k <= 10
    ensures Effects(Steps(calls, p)[..k]) == SuccessEvents(p.title)[..Reached(k)]
  {
    var s := Steps(calls, p);
    var opening := s[..if k < 2 then k else 2];
    assert Effects(opening) == [] by {
      if |opening| > 0 {
        assert opening[1..] == [] || opening[1..] == [s[1]];
        assert Effects(opening[1..]) == [];
      }
    }
    if k > 2 {
      var rest := s[2..];
      assert s[..k] == opening + rest[..k - 2];
      EffectsAppend(opening, rest[..k - 2]);
      EffectsPrefixOfSingles(rest, k - 2);
      EffectsAfterOpening(calls, p);
    }
  }

  /** The steps' effects, all together, are the success events. */
  lemma StepEffects(calls: Calls, p: Prepared)
    ensures Effects(Steps(calls, p)) == SuccessEvents(p.title)
  {
    EffectsBefore(calls, p, 10);
    assert Steps(calls, p)[..10] == Steps(calls, p);
  }

  /** The fixed texts can be told apart by their first character. */
  lemma TextsDiffer()
    ensures NotPdfReply != EnjoyReply
    ensures !IsErrorText(DownloadedStatus) && !IsErrorText(ConvertingStatus) && !IsErrorText(SendingStatus)
    ensures !IsErrorText(EnjoyReply) && !IsErrorText(ReceivedStatus)
    ensures IsErrorText(UnexpectedStatus) && ErrorPrefix[0] == CrossMark
  {
    assert NotPdfReply[0] == 'P';
  }

  /** If some step raises, a first one does. */
  lemma {:induction false} FirstRaiseExists(steps: seq<Step>, i: int)
    requires 0 <= i < |steps| && steps[i].outcome.Raise?
    ensures exists k :: FirstRaise(steps, k)
    decreases i
  {
    if !FirstRaise(steps, i) {
      var j :| 0 <= j < i && steps[j].outcome.Raise?;
      FirstRaiseExists(steps, j);
    }
  }

  /** The events of the `try` block are the success events up to the step
      that raised, or all of them. */
  lemma TryEventsPrefix(calls: Calls, p: Prepared)
    ensures RunSteps(Steps(calls, p)).events <= SuccessEvents(p.title)
  {
    var s := Steps(calls, p);
    if RunSteps(s).failure.None? {
      StepEffects(calls, p);
    } else {
      var i :| 0 <= i < |s| && s[i].outcome.Raise?;
      FirstRaiseExists(s, i);
      var k :| FirstRaise(s, k);
      RunStepsStops(s, k);
      EffectsBefore(calls, p, k);
    }
  }

  /** The success events hold no non-PDF reply, no temporary directory event
      and no error text. */
  lemma SuccessEventsOrdinary(title: string)
    ensures var all := SuccessEvents(title);
      && Replied(NotPdfReply) !in all
      && TempDirCreated !in all && TempDirRemoved !in all
      && forall i :: 0 <= i < |all| && all[i].StatusEdited? ==> !IsErrorText(all[i].text)
  {
    TextsDiffer();
  }

  /** Nothing inside the `try` block posts the non-PDF reply, touches the
      temporary directory or shows an error text. */
  lemma TryEventsAreOrdinary(calls: Calls, p: Prepared)
    ensures var events := RunSteps(Steps(calls, p)).events;
      && Replied(NotPdfReply) !in events
      && TempDirCreated !in events && TempDirRemoved !in events
      && forall i :: 0 <= i < |events| && events[i].StatusEdited? ==> !IsErrorText(events[i].text)
  {
    var events := RunSteps(Steps(calls, p)).events;
    var all := SuccessEvents(p.title);
    TryEventsPrefix(calls, p);
    SuccessEventsOrdinary(p.title);
    assert forall i :: 0 <= i < |events| ==> events[i] == all[i];
    assert forall ev :: ev in events ==> ev in all;
  }

  /** The `with` block itself sends no reply: every reply in its trace comes
      from the `try` block. */
  lemma ReportedReplies(attempt: Attempt, editError: Outcome, text: string)
    ensures Replied(text) in ReportOutcome(attempt, editError).trace <==> Replied(text) in attempt.events
  {
    assert Replied(text) !in Handled(attempt.failure, editError).events;
  }

  /** Whatever the `try` block did, the `with` block opens with the status
      message and the temporary directory and closes by removing the
      directory, once each. */
  lemma ReportedDirLifecycle(attempt: Attempt, editError: Outcome)
    requires TempDirCreated !in attempt.events && TempDirRemoved !in attempt.events
    ensures var t := ReportOutcome(attempt, editError).trace;
      && |t| >= 3
      && t[0] == StatusPosted(ReceivedStatus)
      && t[1] == TempDirCreated
      && t[|t| - 1] == TempDirRemoved
      && multiset(t)[TempDirCreated] == 1
      && multiset(t)[TempDirRemoved] == 1
  {
    var t := ReportOutcome(attempt, editError).trace;
    var middle := attempt.events + Handled(attempt.failure, editError).events;
    assert TempDirCreated !in middle && TempDirRemoved !in middle;
    assert t == [StatusPosted(ReceivedStatus), TempDirCreated] + middle + [TempDirRemoved];
    assert multiset(t) == multiset([StatusPosted(ReceivedStatus), TempDirCreated]) + multiset(middle)
      + multiset([TempDirRemoved]);
  }

  // ----- The error edits of a trace -----

  /** The texts of the error edits in a trace, in order. */
  function ErrorEdits(trace: seq<Event>): seq<string> {
    if |trace| == 0 then []
    else
      (if trace[0].StatusEdited? && IsErrorText(trace[0].text) then [trace[0].text] else [])
      + ErrorEdits(trace[1..])
  }

  lemma {:induction false} ErrorEditsAppend(a: seq<Event>, b: seq<Event>)
    ensures ErrorEdits(a + b) == ErrorEdits(a) + ErrorEdits(b)
    decreases |a|
  {
    if |a| == 0 {
      assert a + b == b;
    } else {
      assert (a + b)[0] == a[0];
      assert (a + b)[1..] == a[1..] + b;
      ErrorEditsAppend(a[1..], b);
    }
  }

  lemma {:induction false} ErrorEditsNone(trace: seq<Event>)
    requires forall i :: 0 <= i < |trace| && trace[i].StatusEdited? ==> !IsErrorText(trace[i].text)
    ensures ErrorEdits(trace) == []
    decreases |trace|
  {
    if |trace| > 0 {
      ErrorEditsNone(trace[1..]);
    }
  }

  // ----- Properties of the handler -----

  /** Every call of the `try` block returns. */
  predicate TryCallsPass(calls: Calls) {
    && calls.getFile.Pass? && calls.download.Pass?
    && calls.editDownloaded.Pass? && calls.editConverting.Pass?
    && calls.editSending.Pass? && calls.sendAudio.Pass?
    && calls.deleteStatus.Pass? && calls.replyEnjoy.Pass?
  }

  /** Every step of the `try` block returns exactly when the name can be
      joined, every call returns and the conversion succeeds. */
  lemma StepsPass(calls: Calls, p: Prepared)
    ensures (forall i :: 0 <= i < |Steps(calls, p)| ==> Steps(calls, p)[i].outcome.Pass?) <==>
      p.naming.Pass? && TryCallsPass(calls) && p.conversion.Pass?
  {
    var s := Steps(calls, p);
    assert s[0].outcome == calls.getFile && s[1].outcome == p.naming && s[2].outcome == calls.download;
    assert s[3].outcome == calls.editDownloaded && s[4].outcome == calls.editConverting;
    assert s[5].outcome == p.conversion && s[6].outcome == calls.editSending;
    assert s[7].outcome == calls.sendAudio && s[8].outcome == calls.deleteStatus && s[9].outcome == calls.replyEnjoy;
  }

  /** A document that is not declared a PDF gets at most the "Please send a PDF
      file." reply: no status message, no download, no conversion. */
  lemma NonPdfRejected(doc: Document, calls: Calls)
    requires doc.mimeType != Some(PdfMimeType)
    ensures var run := HandleDocument(doc, calls);
      && |run.trace| <= 1
      && (forall i :: 0 <= i < |run.trace| ==> run.trace[i] == Replied(NotPdfReply))
      && (run.escaped.None? <==> calls.replyNotPdf.Pass?)
      && run.escaped == (if calls.replyNotPdf.Pass? then None else Some(calls.replyNotPdf.error))
  {
  }

  /** When posting the status message raises, that exception escapes and
      nothing else happens: no temporary directory, no download, no reply. */
  lemma StatusPostFails(doc: Document, calls: Calls)
    requires doc.mimeType == Some(PdfMimeType) && calls.postStatus.Raise?
    ensures HandleDocument(doc, calls) == Run([], Some(calls.postStatus.error))
  {
  }

  /** The "Please send a PDF file." reply is sent exactly when the document is
      not declared a PDF and the reply goes through. */
  lemma NotPdfReplyIff(doc: Document, calls: Calls)
    ensures Replied(NotPdfReply) in HandleDocument(doc, calls).trace <==>
      doc.mimeType != Some(PdfMimeType) && calls.replyNotPdf.Pass?
  {
    if doc.mimeType == Some(PdfMimeType) && calls.postStatus.Pass? {
      var p := Prepare(doc, calls);
      TryEventsAreOrdinary(calls, p);
      ReportedReplies(RunSteps(Steps(calls, p)), calls.editError, NotPdfReply);
    }
  }

  /** The temporary directory exists exactly when the status message was
      posted for a PDF; it is then created once, right after the status
      message, and removed once, as the very last event, whatever failed. */
  lemma TempDirLifecycle(doc: Document, calls: Calls)
    ensures var t := HandleDocument(doc, calls).trace;
      && (TempDirCreated in t <==> doc.mimeType == Some(PdfMimeType) && calls.postStatus.Pass?)
      && (TempDirCreated in t ==>
            && |t| >= 3
            && t[0] == StatusPosted(ReceivedStatus)
            && t[1] == TempDirCreated
            && t[|t| - 1] == TempDirRemoved
            && multiset(t)[TempDirCreated] == 1
            && multiset(t)[TempDirRemoved] == 1)
  {
    if doc.mimeType == Some(PdfMimeType) && calls.postStatus.Pass? {
      var p := Prepare(doc, calls);
      TryEventsAreOrdinary(calls, p);
      ReportedDirLifecycle(RunSteps(Steps(calls, p)), calls.editError);
    }
  }

  /** The `with` block when every step returns. */
  lemma AllPassTrace(calls: Calls, p: Prepared)
    requires p.naming.Pass? && TryCallsPass(calls) && p.conversion.Pass?
    ensures Attempted(calls, p) ==
      Run([StatusPosted(ReceivedStatus), TempDirCreated] + SuccessEvents(p.title) + [TempDirRemoved], None)
  {
    StepsPass(calls, p);
    StepEffects(calls, p);
    assert [] + [TempDirRemoved] == [TempDirRemoved];
  }

  /** When every call returns and the conversion succeeds, the trace is the
      status message, the temporary directory, the download, the three
      progress edits around the conversion, the audio under the upload's name
      with ".mp3", the removal of the status message, the "Enjoy" reply and
      the removal of the directory, in that order. */
  lemma SuccessTrace(doc: Document, calls: Calls, name: string)
    requires doc.mimeType == Some(PdfMimeType) && doc.fileName == Some(name)
    requires calls.postStatus.Pass? && TryCallsPass(calls)
    requires Conversion.PdfToAudio(doc.pdf, calls.tts).Ok?
    ensures HandleDocument(doc, calls) ==
      Run([StatusPosted(ReceivedStatus), TempDirCreated] + SuccessEvents(FileNames.AudioName(name)) + [TempDirRemoved],
          None)
  {
    AllPassTrace(calls, Prepare(doc, calls));
  }

  /** The trace of a failed run, given the events before the failure and the
      error edit (if shown). */
  lemma FailureShape(title: string, m: nat, shown: seq<Event>, e: Exception)
    requires m <= 7
    requires shown == [] || shown == [StatusEdited(ErrorStatus(e))]
    ensures var t := [StatusPosted(ReceivedStatus), TempDirCreated] + SuccessEvents(title)[..m] + shown + [TempDirRemoved];
      && ErrorEdits(t) == (if shown == [] then [] else [ErrorStatus(e)])
      && Replied(EnjoyReply) !in t
      && (StatusDeleted in t <==> m == 7)
  {
    var before := SuccessEvents(title)[..m];
    var opening := [StatusPosted(ReceivedStatus), TempDirCreated];
    FailureErrorEdits(opening, before, shown, e);
    BeforeFailure(title, m);
    assert opening + before + shown + [TempDirRemoved] == opening + (before + shown + [TempDirRemoved]);
    TextsDiffer();
  }

  /** The success events before a failure hold no error text, no "Enjoy"
      reply, and the deletion of the status message only when the last
      step raised. */
  lemma BeforeFailure(title: string, m: nat)
    requires m <= 7
    ensures var before := SuccessEvents(title)[..m];
      && (forall i :: 0 <= i < |before| && before[i].StatusEdited? ==> !IsErrorText(before[i].text))
      && Replied(EnjoyReply) !in before
      && (StatusDeleted in before <==> m == 7)
  {
    var all := SuccessEvents(title);
    var before := all[..m];
    SuccessEventsOrdinary(title);
    assert forall i :: 0 <= i < |before| ==> before[i] == all[i];
    if m == 7 { assert before[6] == StatusDeleted; }
  }

  /** The error edits of a failed run: only the one that was shown. */
  lemma FailureErrorEdits(opening: seq<Event>, before: seq<Event>, shown: seq<Event>, e: Exception)
    requires opening == [StatusPosted(ReceivedStatus), TempDirCreated]
    requires forall i :: 0 <= i < |before| && before[i].StatusEdited? ==> !IsErrorText(before[i].text)
    requires shown == [] || shown == [StatusEdited(ErrorStatus(e))]
    ensures ErrorEdits(opening + before + shown + [TempDirRemoved]) == (if shown == [] then [] else [ErrorStatus(e)])
  {
    TextsDiffer();
    assert IsErrorText(ErrorStatus(e));
    ErrorEditsNone(opening);
    ErrorEditsNone(before);
    ErrorEditsNone([TempDirRemoved]);
    ErrorEditsAppend(opening, before);
    ErrorEditsAppend(opening + before, shown);
    ErrorEditsAppend(opening + before + shown, [TempDirRemoved]);
  }

  /** The `with` block after step `k` raised first. */
  lemma FailureTrace(calls: Calls, p: Prepared, k: int)
    requires FirstRaise(Steps(calls, p), k)
    ensures var e := Steps(calls, p)[k].outcome.error;
      var run := Attempted(calls, p);
      var shown := if calls.editError.Pass? then [StatusEdited(ErrorStatus(e))] else [];
      && run.trace ==
           [StatusPosted(ReceivedStatus), TempDirCreated] + SuccessEvents(p.title)[..Reached(k)]
           + shown + [TempDirRemoved]
      && run.escaped == (if calls.editError.Pass? then None else Some(calls.editError.error))
  {
    RunStepsStops(Steps(calls, p), k);
    EffectsBefore(calls, p, k);
  }

  /** Within the `with` block, the "Enjoy" reply means no step raised. */
  lemma EnjoyMeansNoRaise(calls: Calls, p: Prepared)
    requires Replied(EnjoyReply) in Attempted(calls, p).trace
    ensures forall i :: 0 <= i < |Steps(calls, p)| ==> Steps(calls, p)[i].outcome.Pass?
    ensures Attempted(calls, p).escaped.None?
  {
    var s := Steps(calls, p);
    if RunSteps(s).failure.Some? {
      var i :| 0 <= i < |s| && s[i].outcome.Raise?;
      FirstRaiseExists(s, i);
      var k :| FirstRaise(s, k);
      FailureTrace(calls, p, k);
      var e := s[k].outcome.error;
      var shown := if calls.editError.Pass? then [StatusEdited(ErrorStatus(e))] else [];
      FailureShape(p.title, Reached(k), shown, e);
      assert false;
    }
  }

  /** The "Enjoy" reply is sent exactly when the document is a named PDF,
      every call returns and the conversion succeeds; and then nothing
      escapes. */
  lemma EnjoyIffSuccess(doc: Document, calls: Calls)
    ensures Replied(EnjoyReply) in HandleDocument(doc, calls).trace <==>
      && doc.mimeType == Some(PdfMimeType) && doc.fileName.Some?
      && calls.postStatus.Pass? && TryCallsPass(calls)
      && Conversion.PdfToAudio(doc.pdf, calls.tts).Ok?
    ensures Replied(EnjoyReply) in HandleDocument(doc, calls).trace ==> HandleDocument(doc, calls).escaped.None?
  {
    TextsDiffer();
    if doc.mimeType == Some(PdfMimeType) && calls.postStatus.Pass? {
      var p := Prepare(doc, calls);
      StepsPass(calls, p);
      if Replied(EnjoyReply) in Attempted(calls, p).trace {
        EnjoyMeansNoRaise(calls, p);
      }
      if p.naming.Pass? && TryCallsPass(calls) && p.conversion.Pass? {
        AllPassTrace(calls, p);
        assert SuccessEvents(p.title)[7] == Replied(EnjoyReply);
      }
    }
  }

  /** When step `k` of the `try` block is the first to raise, the trace is the
      status message, the temporary directory, the success events up to that
      step, then one edit of the status message to the error text for the
      exception raised (unless that edit raises too) and the removal of the
      directory. So no "Enjoy" reply is sent, and the status message is
      deleted only when it was the "Enjoy" reply that raised. */
  lemma FailureReported(doc: Document, calls: Calls, k: int)
    requires doc.mimeType == Some(PdfMimeType) && calls.postStatus.Pass?
    requires FirstRaise(Steps(calls, Prepare(doc, calls)), k)
    ensures var e := Steps(calls, Prepare(doc, calls))[k].outcome.error;
      var run := HandleDocument(doc, calls);
      var shown := if calls.editError.Pass? then [StatusEdited(ErrorStatus(e))] else [];
      && run.trace ==
           [StatusPosted(ReceivedStatus), TempDirCreated] + SuccessEvents(AudioTitle(doc))[..Reached(k)]
           + shown + [TempDirRemoved]
      && run.escaped == (if calls.editError.Pass? then None else Some(calls.editError.error))
      && ErrorEdits(run.trace) == (if calls.editError.Pass? then [ErrorStatus(e)] else [])
      && Replied(EnjoyReply) !in run.trace
      && (StatusDeleted in run.trace <==> k == 9)
  {
    var p := Prepare(doc, calls);
    var e := Steps(calls, p)[k].outcome.error;
    FailureTrace(calls, p, k);
    var shown := if calls.editError.Pass? then [StatusEdited(ErrorStatus(e))] else [];
    FailureShape(p.title, Reached(k), shown, e);
  }

  /** A PDF whose pages carry no text (a scanned document) ends, once the
      download and the first two progress edits went through, with the status
      message showing the scanned-image explanation; nothing is converted or
      sent. */
  lemma ScannedPdfReported(doc: Document, calls: Calls)
    requires doc.mimeType == Some(PdfMimeType) && doc.fileName.Some? && doc.pdf.Pages?
    requires forall i :: 0 <= i < |doc.pdf.texts| ==> Text.AllWhitespace(Extraction.PageText(doc.pdf.texts[i]))
    requires calls.postStatus.Pass? && calls.getFile.Pass? && calls.download.Pass?
    requires calls.editDownloaded.Pass? && calls.editConverting.Pass? && calls.editError.Pass?
    ensures HandleDocument(doc, calls) ==
      Run([ StatusPosted(ReceivedStatus), TempDirCreated, Downloaded,
            StatusEdited(DownloadedStatus), StatusEdited(ConvertingStatus),
            StatusEdited(ErrorPrefix + Conversion.NoTextMessage), TempDirRemoved ],
          None)
  {
    Extraction.ConcatPagesBlank(doc.pdf.texts);
    var p := Prepare(doc, calls);
    assert p.conversion == Raise(ValueError(Conversion.NoTextMessage));
    ConversionErrorTrace(calls, p, Conversion.NoTextMessage);
  }

  /** A conversion that raises a `ValueError`, after the calls before it
      returned, ends with its message in the status message. */
  lemma ConversionErrorTrace(calls: Calls, p: Prepared, message: string)
    requires p.naming.Pass? && p.conversion == Raise(ValueError(message))
    requires calls.getFile.Pass? && calls.download.Pass?
    requires calls.editDownloaded.Pass? && calls.editConverting.Pass? && calls.editError.Pass?
    ensures Attempted(calls, p) ==
      Run([ StatusPosted(ReceivedStatus), TempDirCreated, Downloaded,
            StatusEdited(DownloadedStatus), StatusEdited(ConvertingStatus),
            StatusEdited(ErrorPrefix + message), TempDirRemoved ],
          None)
  {
    FailsAtConversion(calls, p);
    FailureTrace(calls, p, 5);
    assert SuccessEvents(p.title)[..3] == [Downloaded, StatusEdited(DownloadedStatus), StatusEdited(ConvertingStatus)];
  }

  /** When the calls before it return, a failing conversion is the step that
      raises. */
  lemma FailsAtConversion(calls: Calls, p: Prepared)
    requires p.naming.Pass? && p.conversion.Raise?
    requires calls.getFile.Pass? && calls.download.Pass?
    requires calls.editDownloaded.Pass? && calls.editConverting.Pass?
    ensures FirstRaise(Steps(calls, p), 5)
    ensures Steps(calls, p)[5].outcome == p.conversion
  {
  }
}
