/** Properties of the recorder that relate several of its handlers, or a
    handler and the speech-recognition hook underneath. */
module RecorderProperties {
  import opened Wrappers
  import opened Text
  import opened SpeechRecognition
  import opened AudioRecorder
  import TranscriptProperties

  /** The Save button is enabled exactly when pressing it saves: the button's
      `disabled` test and the handler's own guard are the same condition. */
  lemma SaveButtonMatchesGuard(r: Recorder, timestamp: string)
    ensures CanSave(r) <==> Save(r, timestamp).saved.Some?
  {
  }

  /** A second save right after a successful one does nothing: the
      transcript it left behind is empty. */
  lemma SaveOnlyOnce(r: Recorder, t1: string, t2: string)
    ensures var o := Save(r, t1);
            o.saved.Some? ==> Save(o.recorder, t2) == SaveOutcome(o.recorder, None)
  {
  }

  /** Clearing disables the Save button. */
  lemma ClearDisablesSave(r: Recorder)
    ensures !CanSave(Clear(r))
  {
  }

  /** Stopping a recording does not change what a save hands over. */
  lemma StopKeepsDraft(r: Recorder, stop: EngineCall, timestamp: string)
    ensures Save(StopRecording(r, stop), timestamp).saved == Save(r, timestamp).saved
  {
  }

  /** A new recording starts from an empty transcript: whatever was there
      before, the first result event of the recording yields exactly the new
      final text, with no leading separator. The mark of the engine instance
      is not reset, so only entries above it count. */
  lemma RecordingStartsFromEmpty(r: Recorder, start: EngineCall, results: seq<SpeechResult>)
    requires r.speech.recognition.Some?
    ensures var s := StartRecording(r, start).speech;
            OnResult(s, results).transcript
              == NewFinalText(results, r.speech.recognition.value.lastProcessedIndex)
  {
  }

  /** A recording whose committed text is only white space cannot be saved:
      the transcript is blank whatever separators were added between batches. */
  lemma {:induction false} BlankBatchesStayBlank(prev: string, batch: string)
    requires IsBlank(prev) && IsBlank(batch)
    ensures IsBlank(Append(prev, batch))
  {
    var r := Append(prev, batch);
    if batch != "" && prev != "" {
      assert r == prev + " " + batch;
      forall i | 0 <= i < |r| ensures IsWhitespace(r[i]) {
        if i < |prev| {
          assert r[i] == prev[i];
        } else if i == |prev| {
          assert r[i] == ' ';
        } else {
          assert r[i] == batch[i - |prev| - 1];
        }
      }
    }
  }

  /** The mark is not reset by a new recording. If the engine starts its
      result list again at index 0 for the new session, every entry at or
      below the old mark is skipped: a new recording whose entries all lie
      there commits nothing. */
  lemma NewRecordingSkipsEntriesAtOrBelowOldMark(
    r: Recorder, stop: EngineCall, start: EngineCall, results: seq<SpeechResult>)
    requires r.speech.recognition.Some?
    requires |results| <= r.speech.recognition.value.lastProcessedIndex + 1
    ensures var s := StartRecording(StopRecording(r, stop), start).speech;
            OnResult(s, results) == s && s.transcript == ""
  {
    var s := StartRecording(StopRecording(r, stop), start).speech;
    TranscriptProperties.RedeliveryChangesNothing(s, results);
  }
}
