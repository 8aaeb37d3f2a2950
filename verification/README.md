# BTalk speech transcript accumulator and recorder, in Dafny

BTalk is a note-taking web app. You dictate a note into the browser's speech
recognition engine and save it. This project models the two pieces of it that
have statable behaviour:

- **The `useSpeechRecognition` hook** (`speech_recognition.dfy`). It is a
  transcript accumulator over a continuous engine that redelivers its whole
  result list on every `result` event. The hook keeps a high-water mark,
  `lastProcessedIndex`, for each engine instance. Each event looks only at
  entries strictly above the mark, and only final entries commit text. The
  batch of one event is the final texts concatenated with no separator. It is
  appended to the transcript with one space when the transcript is non-empty.
  The hook's other transitions are also modelled: `onerror`, `onend` (restart
  under a guard), `startListening`, `stopListening` and `resetTranscript`.
- **The `AudioRecorder` component** (`audio_recorder.dfy`). It is the layer
  of buttons over the hook:
  - Start Recording resets the transcript, then starts.
  - Stop Recording delegates to stop.
  - Clear resets the transcript.
  - Save is guarded by a non-blank transcript. It hands `(title or "Note " +
    time, transcript)` to the save callback, then clears the title and the
    transcript.
  - The title field keeps what was typed.

The React state and the engine instance's closure variables are kept in one
immutable record, and every handler is a pure function on it. A call into the
engine (`start()`, `stop()`) is a parameter that says whether it returned or
threw. Engine events are parameters too: the result list as a sequence of
`(transcript, isFinal)` entries, the error code, the end event. `Step`/`Run`
apply any sequence of user actions and engine events, so properties can be
stated over whole runs. `text.dfy` models JavaScript's `trim` and its
white-space set. `transcript_properties.dfy` and `recorder_properties.dfy` hold
the lemmas.

Three behaviours of the code are worth stating up front, because a reader
might expect otherwise:

- `resetTranscript` clears only the transcript
  (app/hooks/useSpeechRecognition.ts:135-137). The engine instance's mark is
  kept. Every later result event skips every index at or below the mark,
  whatever entries the engine delivers there. This holds after a reset, a
  Clear or a new recording (`ResetDoesNotReopenConsumedEntries`,
  `RecordingStartsFromEmpty`, `NewRecordingSkipsEntriesAtOrBelowOldMark`).
- `startListening` does nothing when there is no engine instance
  (app/hooks/useSpeechRecognition.ts:112). It does not create one.
- `stopListening` clears `isListening` only when the engine's `stop()`
  returns (app/hooks/useSpeechRecognition.ts:127-132). When `stop()` throws,
  nothing changes.

## Model

| member | source | states |
|---|---|---|
| SpeechRecognition.Mounted | app/hooks/useSpeechRecognition.ts:41-93 | A supported browser yields an engine whose mark is -1, with no error. An unsupported one yields no engine and the unsupported-browser message. Either way the transcript is empty and the hook is not listening. The listening flag captured by the end handler is false. |
| SpeechRecognition.Scan | app/hooks/useSpeechRecognition.ts:55-63 | The scan from index i adds exactly the final texts from i on, in order, to the batch. If there is a final entry from i on, the mark ends on one of them and no final entry lies above it. Otherwise the mark does not move. |
| SpeechRecognition.Append | app/hooks/useSpeechRecognition.ts:65-70 | An empty batch leaves the transcript unchanged. Otherwise the new transcript is the old one, then one space exactly when the old one is non-empty, then the batch. |
| SpeechRecognition.OnResult | app/hooks/useSpeechRecognition.ts:54-72 | The new transcript is the old one with the final text strictly above the mark appended. The mark does not decrease. It moves exactly when some final entry lies above it, and then to the greatest such index. Listening state, error and captured flag are unchanged. |
| SpeechRecognition.OnError | app/hooks/useSpeechRecognition.ts:74-77 | The error code is recorded and nothing else changes. |
| SpeechRecognition.OnEnd | app/hooks/useSpeechRecognition.ts:80-88 | A restart is attempted exactly when the guard holds. A throwing restart is swallowed: the hook state never changes. |
| SpeechRecognition.OnEndAsWritten | app/hooks/useSpeechRecognition.ts:80-88 | The guard is the listening flag captured when the instance was created, not the current one. |
| SpeechRecognition.OnEndIntended | app/hooks/useSpeechRecognition.ts:80-88 | Corrected end handler: it restarts exactly when the hook is currently listening, and the hook state is unchanged. |
| SpeechRecognition.StartListening | app/hooks/useSpeechRecognition.ts:111-122 | With no engine it is a no-op. When start returns: listening and error cleared. When start throws: the start-failure message and listening unchanged. The transcript and engine are never touched. |
| SpeechRecognition.StopListening | app/hooks/useSpeechRecognition.ts:124-133 | With no engine, or when stop throws, it is a no-op. When stop returns, the hook is not listening. The transcript, error and engine are never touched. |
| SpeechRecognition.ResetTranscript | app/hooks/useSpeechRecognition.ts:135-137 | The transcript becomes empty. The engine's mark and everything else are untouched. |
| TranscriptProperties.FinalsConcat | app/hooks/useSpeechRecognition.ts:58-63 | The final texts of two consecutive lists join with no separator. |
| TranscriptProperties.RedeliveryChangesNothing | app/hooks/useSpeechRecognition.ts:58-71 | If no final entry lies above the mark, the event changes nothing: not the transcript, not the mark. This covers already-consumed entries redelivered and interim-only lists. |
| TranscriptProperties.OnResultIdempotent | app/hooks/useSpeechRecognition.ts:58-71 | Delivering the same result list twice has the same effect as delivering it once. |
| TranscriptProperties.InterimTextIgnored | app/hooks/useSpeechRecognition.ts:59-62 | Changing the text of an interim entry changes nothing in the event's outcome: interim results never commit. |
| TranscriptProperties.EntriesAtOrBelowMarkIgnored | app/hooks/useSpeechRecognition.ts:58 | Replacing any entry at or below the mark, by anything, changes nothing in the event's outcome: the scan starts strictly above the mark. |
| TranscriptProperties.MarkReachesFinalLast | app/hooks/useSpeechRecognition.ts:58-62 | If the list's last entry is final and lies above the mark, the mark moves to it. |
| TranscriptProperties.GrowingRedelivery | app/hooks/useSpeechRecognition.ts:52-71 | An event delivers a list ending in a final entry. A later event redelivers it with an extension. The later event appends exactly the extension's final text. |
| TranscriptProperties.ResetDoesNotReopenConsumedEntries | app/hooks/useSpeechRecognition.ts:135-137 | After a reset, redelivering the list already consumed leaves the transcript empty. |
| TranscriptProperties.RedeliveredFinalNotRepeated | app/hooks/useSpeechRecognition.ts:54-71 | For any non-empty a and b, `[a✓]` then `[a✓, b✓]` gives "a" and then "a b", never "a a b". With "hello" and "world" this gives "hello world". |
| TranscriptProperties.InterimThenFinal | app/hooks/useSpeechRecognition.ts:58-63 | An interim entry at index 0 commits nothing. Its later final version, with any text, commits only the final text, once. |
| TranscriptProperties.OneEventNoSeparator | app/hooks/useSpeechRecognition.ts:55-60 | Two finals a and b in one event are joined with no separator: a fresh transcript becomes a + b. |
| TranscriptProperties.RunKeepsEngine | app/hooks/useSpeechRecognition.ts:111-137 | Along any run of user actions and engine events, the engine instance is never created or dropped. |
| TranscriptProperties.MarkNeverDecreases | app/hooks/useSpeechRecognition.ts:58-63 | Along any run of user actions and engine events, the mark never decreases. |
| TranscriptProperties.NoIndexCommittedTwice | app/hooks/useSpeechRecognition.ts:51-63 | In any run, two different result events commit disjoint sets of indices. |
| TranscriptProperties.AppendOnlyWithoutReset | app/hooks/useSpeechRecognition.ts:66-70 | In a run without reset, the transcript only grows: the initial transcript is a prefix of the final one. |
| TranscriptProperties.StartThenStop | app/hooks/useSpeechRecognition.ts:111-133 | A successful start followed by a successful stop leaves the hook not listening and with no error. Transcript and engine are as before. |
| TranscriptProperties.ErrorClearedOnlyByStart | app/hooks/useSpeechRecognition.ts:111-122 | After an engine error, the next event clears the error exactly when it is a successful start. |
| TranscriptProperties.CapturedFlagStaysFalse | app/hooks/useSpeechRecognition.ts:80-109 | In every run from a mounted hook, the engine still exists and the flag its end handler captured is still false. |
| TranscriptProperties.StaleGuardNeverRestarts | app/hooks/useSpeechRecognition.ts:80-109 | As written, the end handler never attempts a restart in any run. |
| TranscriptProperties.StaleGuardCounterexample | app/hooks/useSpeechRecognition.ts:80-88 | After a successful start the hook is listening. The as-written end handler does not restart; the intended one does. |
| Text.Trim | app/components/AudioRecorder.tsx:37 | `trim` returns a slice of the input with only white space cut off on either side. It is empty exactly when the input is all white space; otherwise it starts and ends with a character that is not white space. |
| AudioRecorder.EditTitle | app/components/AudioRecorder.tsx:65-72 | The title becomes exactly what was typed, and the speech state is untouched. |
| AudioRecorder.StartRecording | app/components/AudioRecorder.tsx:27-30 | The transcript ends up empty whatever start does. Then the hook's start outcome applies. The title and engine are untouched. |
| AudioRecorder.StopRecording | app/components/AudioRecorder.tsx:32-34 | Only the listening flag may change: it is cleared when the engine's stop returns, and nothing changes when there is no engine or stop throws. Title, transcript, error and engine are untouched. |
| AudioRecorder.Clear | app/components/AudioRecorder.tsx:122-127 | The transcript is emptied whether or not the hook is listening. Title, listening state, error and engine are kept. |
| AudioRecorder.CanSave | app/components/AudioRecorder.tsx:129-131 | The Save button is enabled exactly when the transcript is not blank, which is what `transcript.trim()` being non-empty means. |
| AudioRecorder.SaveTitle | app/components/AudioRecorder.tsx:38 | The title handed to the save callback is the entered title when it is non-empty, even if it is only white space. When the entered title is empty it is "Note " followed by the timestamp. |
| AudioRecorder.Save | app/components/AudioRecorder.tsx:36-42 | A note is handed over exactly when the transcript is not blank, and a blank transcript changes nothing. The content is the transcript untrimmed. The title is the typed one when non-empty (even white space only), else "Note " + the timestamp. Afterwards title and transcript are empty. |
| RecorderProperties.SaveButtonMatchesGuard | app/components/AudioRecorder.tsx:129-131 | The Save button is enabled exactly when pressing it saves a note. |
| RecorderProperties.SaveOnlyOnce | app/components/AudioRecorder.tsx:36-42 | A save right after a successful save does nothing. |
| RecorderProperties.ClearDisablesSave | app/components/AudioRecorder.tsx:122-131 | After Clear the Save button is disabled. |
| RecorderProperties.StopKeepsDraft | app/components/AudioRecorder.tsx:32-42 | Stopping a recording does not change what a save hands over. |
| RecorderProperties.RecordingStartsFromEmpty | app/components/AudioRecorder.tsx:27-30 | After Start Recording, the first result event's transcript is exactly the new final text above the engine's mark, with no leading space. |
| RecorderProperties.NewRecordingSkipsEntriesAtOrBelowOldMark | app/components/AudioRecorder.tsx:27-34 | Stop Recording and then Start Recording do not reset the engine's mark. So a result list whose entries all lie at or below the old mark commits nothing, and the new transcript stays empty. |
| RecorderProperties.BlankBatchesStayBlank | app/hooks/useSpeechRecognition.ts:66-70 | Appending a blank batch to a blank transcript gives a blank transcript, so such a recording cannot be saved. |

## Left out

- The engine's numbering of results across sessions is not modelled: each event's list is a parameter. In the Web Speech API, a `start()` after the engine has ended begins a new result list at index 0. The code never resets the mark, so such a session would lose its first entries up to the old mark. The model proves that consequence (`NewRecordingSkipsEntriesAtOrBelowOldMark`) but does not claim the engine numbers results that way, because nothing in this code base fixes the engine's behaviour.
- Browser detection, the hydration effects and the effect cleanup are host plumbing. The model starts from `Mounted(supported)` (app/hooks/useSpeechRecognition.ts:28-50, 99-108; app/components/AudioRecorder.tsx:22-25, 44-55).
- The "Error initializing speech recognition" path (app/hooks/useSpeechRecognition.ts:94-97) is left out: it fires only when the host's engine constructor throws.
- `console.error` logging is left out. It has no effect on state.
- The engine itself is not modelled: when it fires events and which lists it delivers are parameters. So is whether `start()`/`stop()` throw.
- React applies state updates asynchronously and in batches. The model applies each handler's updates at once, in program order. The functional `setTranscript(prev => …)` update reads the latest transcript, as the model does.
- Which of Start and Stop Recording is visible depends on `isListening` (app/components/AudioRecorder.tsx:90-120). This is rendering, so the model allows either handler in any state. The error and "Recording..." displays are also left out.
- The default title's timestamp (`new Date().toLocaleString()`) is an opaque string parameter.
- `IsWhitespace` is the ECMAScript WhiteSpace and LineTerminator set, with space separators as in current Unicode. Older engines with a different Unicode version may differ on a few code points.
- The note service, the server actions, the Redis helper, the page and the note card (app/services/notes.ts, app/actions.ts, app/utils/redis.ts, app/page.tsx, app/components/NoteCard.tsx) are database calls, cache-connection plumbing that nothing uses, and rendering. They are not part of this model.

## Findings

| source | as written | input that shows it | evidently intended | confidence | as-written member | corrected member |
|---|---|---|---|---|---|---|
| app/hooks/useSpeechRecognition.ts:80-88 | `onend` tests `isListening` as captured by the setup effect. That effect runs once (dependencies `[isBrowser]`, line 109), while `isListening` is still false. So the restart branch never runs. | Mount in a browser with an engine, press Start Recording (engine `start()` returns), then the engine fires `end` | Restart the engine whenever the hook is still listening when the engine ends | high; not executed | TranscriptProperties.StaleGuardCounterexample | SpeechRecognition.OnEndIntended |

`Step` takes the end event with `OnEndIntended`. Both versions leave the hook's
state unchanged. They differ only in whether the engine is restarted, which
`EndOutcome` reports.
