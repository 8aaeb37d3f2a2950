/** The `useSpeechRecognition` hook: a transcript accumulator driven by a
    continuous browser speech-recognition engine.

    React state (`transcript`, `isListening`, `error`, the engine instance) and
    the engine instance's closure variable `lastProcessedIndex` are gathered in
    one immutable `Hook` value; every handler and callback of the hook is a pure
    transition on it. Calls into the engine (`start()`, `stop()`) are abstracted
    by whether they return or throw. */
module SpeechRecognition {
  import opened Wrappers

  /** One entry of the engine's result list: the text of its first alternative
      and whether the engine has finalized it (an interim entry may still change). */
  datatype SpeechResult = SpeechResult(transcript: string, isFinal: bool)

  /** The high-water mark into the engine's result list: -1 before any final
      result was consumed, afterwards the index of the last final one consumed. */
  type Mark = m: int | -1 <= m witness -1

  /** What the hook keeps per engine instance: the high-water mark of the
      `onresult` closure, and the `isListening` value that the `onend` closure
      captured when the instance was created. */
  datatype Engine = Engine(lastProcessedIndex: Mark, listeningAtCreation: bool)

  datatype Hook = Hook(
    transcript: string,
    isListening: bool,
    error: Option<string>,
    recognition: Option<Engine>)

  /** Whether a synchronous call into the engine returned normally or threw. */
  datatype EngineCall = Returns | Throws

  const StartFailure: string := "Error starting speech recognition"
  const Unsupported: string := "Your browser does not support speech recognition."

  /** The hook's state before its setup effect has run. */
  const Unmounted: Hook := Hook("", false, None, None)

  /** The state after the setup effect ran in a browser that does (or does not)
      offer a recognition engine. A fresh engine has consumed nothing, and its
      `onend` closure captures the `isListening` of the render that created it. */
  function Mounted(supported: bool): (h: Hook)
    ensures h.transcript == "" && !h.isListening
    ensures h.recognition.Some? <==> supported
    ensures supported ==> h.error.None? && h.recognition.value.lastProcessedIndex == -1
    ensures !supported ==> h.error == Some(Unsupported)
    ensures supported ==> !h.recognition.value.listeningAtCreation
  {
    if supported then
      Unmounted.(recognition := Some(Engine(-1, Unmounted.isListening)))
    else
      Unmounted.(error := Some(Unsupported))
  }

  // ---------------------------------------------------------------------------
  // Reference meaning of a result event
  // ---------------------------------------------------------------------------

  /** The texts of the final entries of `rs`, in order, with no separator;
      interim entries contribute nothing. */
  function Finals(rs: seq<SpeechResult>): string {
    if rs == [] then ""
    else (if rs[0].isFinal then rs[0].transcript else "") + Finals(rs[1..])
  }

  /** The entries of `results` from index `i` on (none when `i` is past the end). */
  function From(results: seq<SpeechResult>, i: int): seq<SpeechResult> {
    if 0 <= i <= |results| then results[i..] else []
  }

  /** Whether some entry at index `i` or later is final. */
  predicate HasFinalFrom(results: seq<SpeechResult>, i: int) {
    exists j :: 0 <= j < |results| && i <= j && results[j].isFinal
  }

  /** The indices whose text an event delivering `results` commits when the
      engine's mark is `mark`: the final entries strictly above the mark. */
  function Committed(results: seq<SpeechResult>, mark: Mark): set<int> {
    set j | mark < j < |results| && results[j].isFinal
  }

  /** The text an event delivering `results` commits when the mark is `mark`. */
  function NewFinalText(results: seq<SpeechResult>, mark: Mark): string {
    Finals(From(results, mark + 1))
  }

  // ---------------------------------------------------------------------------
  // The `onresult` handler
  // ---------------------------------------------------------------------------

  /** The batch one `onresult` call builds: the final text gathered so far and
      the current value of the high-water mark. */
  datatype Batch = Batch(finalText: string, mark: Mark)

  /** The scanning loop of `onresult`, from index `i` to the end of the list:
      every final entry appends its text to the batch and moves the mark to
      its own index; interim entries are skipped. */
  function Scan(results: seq<SpeechResult>, i: nat, acc: Batch): (b: Batch)
    ensures b.finalText == acc.finalText + Finals(From(results, i))
    ensures HasFinalFrom(results, i) ==>
              i <= b.mark < |results| && results[b.mark].isFinal
    ensures !HasFinalFrom(results, i) ==> b.mark == acc.mark
    ensures forall j :: b.mark < j < |results| && i <= j ==> !results[j].isFinal
    decreases |results| - i
  {
    if i >= |results| then
      acc
    else if results[i].isFinal then
      Scan(results, i + 1, Batch(acc.finalText + results[i].transcript, i))
    else
      Scan(results, i + 1, acc)
  }

  /** The transcript update at the end of `onresult`: an empty batch leaves
      the transcript alone; otherwise the batch is appended to the previous
      transcript, separated by one space exactly when that is non-empty. */
  function Append(prev: string, batch: string): (r: string)
    ensures prev <= r
    ensures |batch| <= |r| && r[|r| - |batch|..] == batch
    ensures batch == "" ==> r == prev
    ensures batch != "" ==> |r| == |prev| + |batch| + (if prev == "" then 0 else 1)
    ensures batch != "" && prev != "" ==> r[|prev|] == ' '
  {
    if batch == "" then prev
    else (if prev != "" then prev + " " else prev) + batch
  }

  /** One `onresult` event delivering the engine's whole result list. Only
      indices strictly above the mark are looked at; the committed text is the
      final entries' text among them; the mark moves to the last final one
      among them, or stays where it is. Nothing but the transcript and the
      mark changes. */
  function OnResult(h: Hook, results: seq<SpeechResult>): (r: Hook)
    requires h.recognition.Some?
    ensures r.recognition.Some?
    ensures r.isListening == h.isListening && r.error == h.error
    ensures r.recognition.value.listeningAtCreation == h.recognition.value.listeningAtCreation
    ensures r.transcript == Append(h.transcript, NewFinalText(results, h.recognition.value.lastProcessedIndex))
    ensures var m, m' := h.recognition.value.lastProcessedIndex, r.recognition.value.lastProcessedIndex;
            && m <= m'
            && (m' == m <==> Committed(results, m) == {})
            && (m' != m ==> m' in Committed(results, m))
            && (forall j :: j in Committed(results, m) ==> j <= m')
  {
    var e := h.recognition.value;
    var b := Scan(results, e.lastProcessedIndex + 1, Batch("", e.lastProcessedIndex));
    ScanMarkIsLastCommitted(results, e.lastProcessedIndex);
    var t := Append(h.transcript, b.finalText);
    h.(transcript := t, recognition := Some(e.(lastProcessedIndex := b.mark)))
  }

  /** What the scan of one event yields, in terms of the indices the event
      commits: their text, and a mark on the greatest of them or where it was. */
  lemma ScanMarkIsLastCommitted(results: seq<SpeechResult>, m: Mark)
    ensures var b := Scan(results, m + 1, Batch("", m));
            && b.finalText == NewFinalText(results, m)
            && m <= b.mark
            && (b.mark == m <==> Committed(results, m) == {})
            && (b.mark != m ==> b.mark in Committed(results, m))
            && (forall j :: j in Committed(results, m) ==> j <= b.mark)
  {
    var b := Scan(results, m + 1, Batch("", m));
    assert "" + Finals(From(results, m + 1)) == NewFinalText(results, m);
    if HasFinalFrom(results, m + 1) {
      var j :| 0 <= j < |results| && m + 1 <= j && results[j].isFinal;
      assert j in Committed(results, m);
      assert b.mark in Committed(results, m);
    } else {
      assert Committed(results, m) == {};
    }
  }

  // ---------------------------------------------------------------------------
  // The other handlers and the hook's callbacks
  // ---------------------------------------------------------------------------

  /** `onerror`: the event's error code is recorded; nothing else changes. */
  function OnError(h: Hook, code: string): (r: Hook)
    ensures r.error == Some(code)
    ensures r.transcript == h.transcript && r.isListening == h.isListening
    ensures r.recognition == h.recognition
  {
    h.(error := Some(code))
  }

  /** What an `onend` call did: the hook's state afterwards, whether it tried
      to restart the engine, and whether that restart returned normally. */
  datatype EndOutcome = EndOutcome(hook: Hook, restartAttempted: bool, restarted: bool)

  /** `onend`, with the listening flag its guard reads given as `guard`. A
      restart is attempted only under the guard, and a restart that throws is
      swallowed: the hook's state never changes. */
  function OnEnd(h: Hook, guard: bool, restart: EngineCall): (r: EndOutcome)
    ensures r.hook == h
    ensures r.restartAttempted <==> guard
    ensures r.restarted <==> r.restartAttempted && restart == Returns
  {
    if guard then EndOutcome(h, true, restart == Returns)
    else EndOutcome(h, false, false)
  }

  /** `onend` as written: its guard reads the `isListening` captured by the
      setup effect when the engine instance was created, not the current one. */
  function OnEndAsWritten(h: Hook, restart: EngineCall): (r: EndOutcome)
    requires h.recognition.Some?
    ensures r.hook == h
    ensures r.restartAttempted <==> h.recognition.value.listeningAtCreation
  {
    OnEnd(h, h.recognition.value.listeningAtCreation, restart)
  }

  /** `onend` as evidently intended: the engine is restarted whenever the user
      still wants to listen when it ends. */
  function OnEndIntended(h: Hook, restart: EngineCall): (r: EndOutcome)
    ensures r.hook == h
    ensures r.restartAttempted <==> h.isListening
    ensures r.restarted <==> h.isListening && restart == Returns
  {
    OnEnd(h, h.isListening, restart)
  }

  /** `startListening`: without an engine nothing happens. When `start()`
      returns, the hook is listening and any recorded error is cleared; when it
      throws, the start-failure message is recorded and `isListening` keeps its
      value. The transcript and the engine are never touched. */
  function StartListening(h: Hook, start: EngineCall): (r: Hook)
    ensures r.transcript == h.transcript && r.recognition == h.recognition
    ensures h.recognition.None? ==> r == h
    ensures h.recognition.Some? && start == Returns ==> r.isListening && r.error.None?
    ensures h.recognition.Some? && start == Throws ==>
              r.isListening == h.isListening && r.error == Some(StartFailure)
  {
    if h.recognition.None? then h
    else if start == Returns then h.(isListening := true, error := None)
    else h.(error := Some(StartFailure))
  }

  /** `stopListening`: without an engine nothing happens. When `stop()`
      returns, the hook is no longer listening; when it throws, nothing changes.
      The transcript, the error and the engine are never touched. */
  function StopListening(h: Hook, stop: EngineCall): (r: Hook)
    ensures r.transcript == h.transcript && r.recognition == h.recognition
    ensures r.error == h.error
    ensures h.recognition.None? || stop == Throws ==> r == h
    ensures h.recognition.Some? && stop == Returns ==> !r.isListening
  {
    if h.recognition.None? then h
    else if stop == Returns then h.(isListening := false)
    else h
  }

  /** `resetTranscript`: the transcript becomes empty; the engine's mark, like
      everything else, is left as it was. */
  function ResetTranscript(h: Hook): (r: Hook)
    ensures r.transcript == ""
    ensures r.isListening == h.isListening && r.error == h.error
    ensures r.recognition == h.recognition
  {
    h.(transcript := "")
  }

  // ---------------------------------------------------------------------------
  // Runs: any interleaving of callbacks and engine events
  // ---------------------------------------------------------------------------

  /** Everything that can happen to the hook once it is mounted. */
  datatype Event =
    | ResultEvent(results: seq<SpeechResult>)
    | ErrorEvent(code: string)
    | EndEvent(restart: EngineCall)
    | StartCall(start: EngineCall)
    | StopCall(stop: EngineCall)
    | ResetCall

  /** One event. Engine events only arrive at an existing engine instance;
      the end event is taken with its intended guard, which changes no state
      either way. */
  function Step(h: Hook, e: Event): Hook {
    match e
    case ResultEvent(results) => if h.recognition.Some? then OnResult(h, results) else h
    case ErrorEvent(code) => if h.recognition.Some? then OnError(h, code) else h
    case EndEvent(restart) => OnEndIntended(h, restart).hook
    case StartCall(start) => StartListening(h, start)
    case StopCall(stop) => StopListening(h, stop)
    case ResetCall => ResetTranscript(h)
  }

  /** The state after the events `es`, in order. */
  function Run(h: Hook, es: seq<Event>): Hook
    decreases |es|
  {
    if es == [] then h else Step(Run(h, es[..|es| - 1]), es[|es| - 1])
  }

  /** The high-water mark of a state (-1 when there is no engine). */
  function MarkOf(h: Hook): Mark {
    if h.recognition.Some? then h.recognition.value.lastProcessedIndex else -1
  }
}
