/** The `AudioRecorder` component: a title field and the buttons that drive the
    speech-recognition hook (start, stop, clear, save). Its state is the title
    the user typed plus the hook's state; each button handler is a pure
    transition. The save callback is not called here but returned: `Save`
    yields the note it would hand to `onSave`, if any. */
module AudioRecorder {
  import opened Wrappers
  import opened Text
  import opened SpeechRecognition

  datatype Recorder = Recorder(title: string, speech: Hook)

  /** The arguments of one `onSave(title, content)` call. */
  datatype NoteDraft = NoteDraft(title: string, content: string)

  /** The recorder after a save attempt, and the note handed to `onSave`
      when the attempt went through. */
  datatype SaveOutcome = SaveOutcome(recorder: Recorder, saved: Option<NoteDraft>)

  const DefaultTitlePrefix: string := "Note "

  /** The title field's `onChange`: the field holds exactly what was typed. */
  function EditTitle(r: Recorder, typed: string): (r': Recorder)
    ensures r'.title == typed && r'.speech == r.speech
  {
    r.(title := typed)
  }

  /** Start Recording: the transcript is reset first, then the hook starts
      listening. The transcript ends up empty whether or not the engine's
      `start()` throws. */
  function StartRecording(r: Recorder, start: EngineCall): (r': Recorder)
    ensures r'.title == r.title
    ensures r'.speech.transcript == ""
    ensures r'.speech.recognition == r.speech.recognition
    ensures r.speech.recognition.None? ==> r'.speech == r.speech.(transcript := "")
    ensures r.speech.recognition.Some? && start == Returns ==>
              r'.speech.isListening && r'.speech.error.None?
    ensures r.speech.recognition.Some? && start == Throws ==>
              r'.speech.isListening == r.speech.isListening && r'.speech.error == Some(StartFailure)
  {
    r.(speech := StartListening(ResetTranscript(r.speech), start))
  }

  /** Stop Recording: only delegates to the hook's stop; the title and the
      transcript are untouched. */
  function StopRecording(r: Recorder, stop: EngineCall): (r': Recorder)
    ensures r'.title == r.title
    ensures r'.speech.transcript == r.speech.transcript
    ensures r'.speech.recognition == r.speech.recognition
    ensures r'.speech.error == r.speech.error
    ensures r.speech.recognition.Some? && stop == Returns ==> !r'.speech.isListening
    ensures r.speech.recognition.None? || stop == Throws ==> r' == r
  {
    r.(speech := StopListening(r.speech, stop))
  }

  /** Clear: resets the transcript, whether or not the hook is listening;
      the title, the listening state, the error and the engine are untouched. */
  function Clear(r: Recorder): (r': Recorder)
    ensures r'.speech.transcript == ""
    ensures r'.title == r.title
    ensures r'.speech.isListening == r.speech.isListening
    ensures r'.speech.error == r.speech.error
    ensures r'.speech.recognition == r.speech.recognition
  {
    r.(speech := ResetTranscript(r.speech))
  }

  /** Whether the Save button is enabled: the trimmed transcript is
      non-empty, that is, the transcript is not blank. */
  function CanSave(r: Recorder): (enabled: bool)
    ensures enabled <==> !IsBlank(r.speech.transcript)
  {
    Trim(r.speech.transcript) != ""
  }

  /** The title handed to `onSave`: the typed title when non-empty (even if
      it is only white space), else "Note " followed by the current time as
      the browser formats it. */
  function SaveTitle(title: string, timestamp: string): (t: string)
    ensures title != "" ==> t == title
    ensures title == "" ==> t == DefaultTitlePrefix + timestamp
  {
    if title != "" then title else DefaultTitlePrefix + timestamp
  }

  /** Save: nothing happens when the transcript is blank. Otherwise `onSave`
      gets the title (defaulted) and the transcript exactly as accumulated,
      untrimmed, and then both the title and the transcript are cleared. */
  function Save(r: Recorder, timestamp: string): (o: SaveOutcome)
    ensures o.saved.Some? <==> !IsBlank(r.speech.transcript)
    ensures o.saved.None? ==> o.recorder == r
    ensures o.saved.Some? ==> o.saved.value.content == r.speech.transcript
    ensures o.saved.Some? && r.title != "" ==> o.saved.value.title == r.title
    ensures o.saved.Some? && r.title == "" ==> o.saved.value.title == DefaultTitlePrefix + timestamp
    ensures o.saved.Some? ==>
              o.recorder == Recorder("", r.speech.(transcript := ""))
  {
    if Trim(r.speech.transcript) != "" then
      SaveOutcome(
        Recorder("", ResetTranscript(r.speech)),
        Some(NoteDraft(SaveTitle(r.title, timestamp), r.speech.transcript)))
    else
      SaveOutcome(r, None)
  }
}
