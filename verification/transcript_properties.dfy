/** Properties of the transcript accumulator: what one result event commits,
    why redelivered results are never committed twice, and what holds across
    any run of the hook. */
module TranscriptProperties {
  import opened Wrappers
  import opened SpeechRecognition

  // ---------------------------------------------------------------------------
  // The reference concatenation of final texts
  // ---------------------------------------------------------------------------

  /** A list holding no final entry contributes no text. */
  lemma {:induction false} FinalsOfInterimOnly(rs: seq<SpeechResult>)
    requires forall j :: 0 <= j < |rs| ==> !rs[j].isFinal
    ensures Finals(rs) == ""
  {
    if rs != [] {
      assert forall j :: 0 <= j < |rs[1..]| ==> !rs[1..][j].isFinal by {
        forall j | 0 <= j < |rs[1..]| ensures !rs[1..][j].isFinal {
          assert rs[1..][j] == rs[j + 1];
        }
      }
      FinalsOfInterimOnly(rs[1..]);
    }
  }

  /** Final texts of consecutive lists concatenate with no separator. */
  lemma {:induction false} FinalsConcat(a: seq<SpeechResult>, b: seq<SpeechResult>)
    ensures Finals(a + b) == Finals(a) + Finals(b)
  {
    if a == [] {
      assert a + b == b;
    } else {
      var head := if a[0].isFinal then a[0].transcript else "";
      assert (a + b)[0] == a[0];
      assert (a + b)[1..] == a[1..] + b;
      FinalsConcat(a[1..], b);
      calc {
        Finals(a + b);
        head + Finals(a[1..] + b);
        head + (Finals(a[1..]) + Finals(b));
        (head + Finals(a[1..])) + Finals(b);
      }
    }
  }

  /** Rewriting the text of an interim entry does not change the final text. */
  lemma {:induction false} FinalsIgnoreInterimText(rs: seq<SpeechResult>, j: nat, t: string)
    requires j < |rs| && !rs[j].isFinal
    ensures Finals(rs[j := SpeechResult(t, false)]) == Finals(rs)
  {
    var rs' := rs[j := SpeechResult(t, false)];
    if j > 0 {
      assert rs'[1..] == rs[1..][j - 1 := SpeechResult(t, false)];
      FinalsIgnoreInterimText(rs[1..], j - 1, t);
    } else {
      assert rs'[1..] == rs[1..];
    }
  }

  // ---------------------------------------------------------------------------
  // One result event
  // ---------------------------------------------------------------------------

  /** Delivering a list with no final entry above the mark (a redelivery of
      already-consumed entries, or interim entries only) changes nothing at
      all: not the transcript, not the mark. */
  lemma RedeliveryChangesNothing(h: Hook, results: seq<SpeechResult>)
    requires h.recognition.Some?
    requires forall j :: h.recognition.value.lastProcessedIndex < j < |results| ==> !results[j].isFinal
    ensures OnResult(h, results) == h
  {
    var m := h.recognition.value.lastProcessedIndex;
    var rest := From(results, m + 1);
    assert forall j :: 0 <= j < |rest| ==> !rest[j].isFinal by {
      if m + 1 <= |results| {
        forall j | 0 <= j < |rest| ensures !rest[j].isFinal {
          assert rest[j] == results[m + 1 + j];
        }
      }
    }
    FinalsOfInterimOnly(rest);
    assert Committed(results, m) == {};
  }

  /** Delivering the same result list twice commits its text once. */
  lemma OnResultIdempotent(h: Hook, results: seq<SpeechResult>)
    requires h.recognition.Some?
    ensures OnResult(OnResult(h, results), results) == OnResult(h, results)
  {
    var h1 := OnResult(h, results);
    var m := h.recognition.value.lastProcessedIndex;
    assert forall j :: h1.recognition.value.lastProcessedIndex < j < |results| ==> !results[j].isFinal;
    RedeliveryChangesNothing(h1, results);
  }

  /** Two lists that commit the same indices and the same text above the
      mark have the same outcome. */
  lemma SameCommitSameOutcome(h: Hook, rs1: seq<SpeechResult>, rs2: seq<SpeechResult>)
    requires h.recognition.Some?
    requires Committed(rs1, h.recognition.value.lastProcessedIndex)
             == Committed(rs2, h.recognition.value.lastProcessedIndex)
    requires NewFinalText(rs1, h.recognition.value.lastProcessedIndex)
             == NewFinalText(rs2, h.recognition.value.lastProcessedIndex)
    ensures OnResult(h, rs1) == OnResult(h, rs2)
  {
    var m := h.recognition.value.lastProcessedIndex;
    var a, b := OnResult(h, rs1), OnResult(h, rs2);
    var ma, mb := a.recognition.value.lastProcessedIndex, b.recognition.value.lastProcessedIndex;
    if Committed(rs1, m) != {} {
      assert ma in Committed(rs2, m) && mb in Committed(rs1, m);
    }
    assert ma == mb;
  }

  /** Rewriting the text of an interim entry does not change the text an
      event commits, wherever the entry lies relative to the mark. */
  lemma InterimTextKeepsNewFinalText(results: seq<SpeechResult>, m: Mark, j: nat, t: string)
    requires j < |results| && !results[j].isFinal
    ensures NewFinalText(results[j := SpeechResult(t, false)], m) == NewFinalText(results, m)
  {
    var rs' := results[j := SpeechResult(t, false)];
    if m + 1 <= j {
      assert From(rs', m + 1) == From(results, m + 1)[j - (m + 1) := SpeechResult(t, false)];
      FinalsIgnoreInterimText(From(results, m + 1), j - (m + 1), t);
    } else if m + 1 <= |results| {
      assert From(rs', m + 1) == From(results, m + 1);
    }
  }

  /** Interim entries never commit: whatever text an interim entry carries,
      the event's outcome is the same. */
  lemma InterimTextIgnored(h: Hook, results: seq<SpeechResult>, j: nat, t: string)
    requires h.recognition.Some?
    requires j < |results| && !results[j].isFinal
    ensures OnResult(h, results[j := SpeechResult(t, false)]) == OnResult(h, results)
  {
    var rs' := results[j := SpeechResult(t, false)];
    var m := h.recognition.value.lastProcessedIndex;
    assert Committed(rs', m) == Committed(results, m) by {
      forall i ensures i in Committed(rs', m) <==> i in Committed(results, m) {
        if m < i < |results| {
          assert rs'[i].isFinal == results[i].isFinal;
        }
      }
    }
    InterimTextKeepsNewFinalText(results, m, j, t);
    SameCommitSameOutcome(h, rs', results);
  }

  /** Only entries strictly above the mark are looked at: replacing an entry
      at or below it, by anything at all, changes nothing in the outcome. */
  lemma EntriesAtOrBelowMarkIgnored(h: Hook, results: seq<SpeechResult>, j: nat, x: SpeechResult)
    requires h.recognition.Some?
    requires j < |results| && j <= h.recognition.value.lastProcessedIndex
    ensures OnResult(h, results[j := x]) == OnResult(h, results)
  {
    var rs' := results[j := x];
    var m := h.recognition.value.lastProcessedIndex;
    assert Committed(rs', m) == Committed(results, m) by {
      forall i ensures i in Committed(rs', m) <==> i in Committed(results, m) {
        if m < i < |results| {
          assert rs'[i] == results[i];
        }
      }
    }
    assert From(rs', m + 1) == From(results, m + 1);
    SameCommitSameOutcome(h, rs', results);
  }

  /** When the last entry of a list is final and lies above the mark, an
      event delivering the list moves the mark to that last entry. */
  lemma MarkReachesFinalLast(h: Hook, rs: seq<SpeechResult>)
    requires h.recognition.Some? && h.recognition.value.lastProcessedIndex < |rs|
    requires |rs| > 0 && rs[|rs| - 1].isFinal
    ensures OnResult(h, rs).recognition.value.lastProcessedIndex == |rs| - 1
  {
    var m := h.recognition.value.lastProcessedIndex;
    if m < |rs| - 1 {
      assert |rs| - 1 in Committed(rs, m);
    } else {
      assert Committed(rs, m) == {};
    }
  }

  /** The engine's list grows: an event delivers `rs1`, whose last entry is
      final, and a later event redelivers it extended by `ext`. The second
      event commits exactly the final text of the extension, so nothing of
      `rs1` is committed twice. */
  lemma GrowingRedelivery(h: Hook, rs1: seq<SpeechResult>, ext: seq<SpeechResult>)
    requires h.recognition.Some? && h.recognition.value.lastProcessedIndex < |rs1|
    requires |rs1| > 0 && rs1[|rs1| - 1].isFinal
    ensures OnResult(OnResult(h, rs1), rs1 + ext).transcript
              == Append(OnResult(h, rs1).transcript, Finals(ext))
  {
    var h1 := OnResult(h, rs1);
    MarkReachesFinalLast(h, rs1);
    assert From(rs1 + ext, |rs1|) == ext;
    assert NewFinalText(rs1 + ext, h1.recognition.value.lastProcessedIndex) == Finals(ext);
  }

  /** Reset empties the transcript but keeps the mark, so entries an engine
      instance has already delivered are not committed again after a reset. */
  lemma ResetDoesNotReopenConsumedEntries(h: Hook, results: seq<SpeechResult>)
    requires h.recognition.Some?
    ensures OnResult(ResetTranscript(OnResult(h, results)), results).transcript == ""
  {
    OnResultIdempotent(h, results);
    var h1 := ResetTranscript(OnResult(h, results));
    RedeliveryChangesNothing(h1, results);
  }

  /** A single final entry commits exactly its own text. */
  lemma FinalsSingle(t: string, isFinal: bool)
    ensures Finals([SpeechResult(t, isFinal)]) == (if isFinal then t else "")
  {
    assert [SpeechResult(t, isFinal)][1..] == [];
  }

  /** The engine first delivers `[a (final)]`, then redelivers it with
      `b (final)` appended: the transcript reads `a`, then `a b`, never
      `a a b` (with `a` = "hello" and `b` = "world": "hello world"). */
  lemma RedeliveredFinalNotRepeated(a: string, b: string)
    requires a != "" && b != ""
    ensures var h1 := OnResult(Mounted(true), [SpeechResult(a, true)]);
            var h2 := OnResult(h1, [SpeechResult(a, true), SpeechResult(b, true)]);
            h1.transcript == a && h2.transcript == a + " " + b
  {
    var h0 := Mounted(true);
    var rs1 := [SpeechResult(a, true)];
    var ext := [SpeechResult(b, true)];
    assert rs1 + ext == [SpeechResult(a, true), SpeechResult(b, true)];
    FinalsSingle(a, true);
    FinalsSingle(b, true);
    assert From(rs1, 0) == rs1;
    GrowingRedelivery(h0, rs1, ext);
  }

  /** An interim hypothesis at index 0 commits nothing; once the engine
      finalizes index 0, with whatever text, only the final text is
      committed. */
  lemma InterimThenFinal(guess: string, text: string)
    ensures var h1 := OnResult(Mounted(true), [SpeechResult(guess, false)]);
            var h2 := OnResult(h1, [SpeechResult(text, true)]);
            h1.transcript == "" && h2.transcript == text
  {
    var h0 := Mounted(true);
    var rs1 := [SpeechResult(guess, false)];
    var rs2 := [SpeechResult(text, true)];
    RedeliveryChangesNothing(h0, rs1);
    assert From(rs2, 0) == rs2;
    FinalsSingle(text, true);
  }

  /** Final texts inside one event are joined with no separator. */
  lemma OneEventNoSeparator(a: string, b: string)
    ensures OnResult(Mounted(true), [SpeechResult(a, true), SpeechResult(b, true)]).transcript
              == a + b
  {
    var rs := [SpeechResult(a, true), SpeechResult(b, true)];
    assert rs == [rs[0]] + [rs[1]];
    FinalsConcat([rs[0]], [rs[1]]);
    FinalsSingle(a, true);
    FinalsSingle(b, true);
    assert From(rs, 0) == rs;
  }

  // ---------------------------------------------------------------------------
  // Runs
  // ---------------------------------------------------------------------------

  lemma RunPrefix(h: Hook, es: seq<Event>, k: nat)
    requires k < |es|
    ensures Run(h, es[..k + 1]) == Step(Run(h, es[..k]), es[k])
  {
    assert es[..k + 1][..k] == es[..k];
  }

  /** One event never creates or drops the engine, never changes what its
      end handler captured, and never lowers the mark. */
  lemma StepKeepsEngine(h: Hook, e: Event)
    ensures Step(h, e).recognition.Some? == h.recognition.Some?
    ensures h.recognition.Some? ==>
              Step(h, e).recognition.value.listeningAtCreation == h.recognition.value.listeningAtCreation
    ensures MarkOf(h) <= MarkOf(Step(h, e))
  {
  }

  /** One more event of a run does not lower the mark. */
  lemma RunStepRaisesMark(h: Hook, es: seq<Event>, i: nat)
    requires i < |es|
    ensures MarkOf(Run(h, es[..i])) <= MarkOf(Run(h, es[..i + 1]))
  {
    RunPrefix(h, es, i);
    StepKeepsEngine(Run(h, es[..i]), es[i]);
  }

  /** Along a run, the engine is never created or dropped. */
  lemma {:induction false} RunKeepsEngine(h: Hook, es: seq<Event>)
    ensures Run(h, es).recognition.Some? == h.recognition.Some?
    decreases |es|
  {
    if es != [] {
      RunKeepsEngine(h, es[..|es| - 1]);
      StepKeepsEngine(Run(h, es[..|es| - 1]), es[|es| - 1]);
    }
  }

  /** A sequence whose every element is at most its successor is
      non-decreasing between any two positions. */
  lemma StepwiseMonotone(ms: seq<int>, k: nat, l: nat)
    requires forall i :: 0 <= i < |ms| - 1 ==> ms[i] <= ms[i + 1]
    requires k <= l < |ms|
    ensures ms[k] <= ms[l]
  {
    var i := k;
    while i < l
      invariant k <= i <= l
      invariant ms[k] <= ms[i]
    {
      i := i + 1;
    }
  }

  /** The mark never decreases along a run: whatever the user does (start,
      stop, reset) and whatever the engine reports. */
  lemma MarkNeverDecreases(h: Hook, es: seq<Event>, k: nat, l: nat)
    requires k <= l <= |es|
    ensures MarkOf(Run(h, es[..k])) <= MarkOf(Run(h, es[..l]))
  {
    var ms := seq(|es| + 1, i requires 0 <= i <= |es| => MarkOf(Run(h, es[..i])));
    forall i | 0 <= i < |ms| - 1
      ensures ms[i] <= ms[i + 1]
    {
      RunStepRaisesMark(h, es, i);
    }
    StepwiseMonotone(ms, k, l);
  }

  /** Each index of the engine's result list is committed at most once in a
      run: the indices two different result events commit are disjoint. */
  lemma NoIndexCommittedTwice(h: Hook, es: seq<Event>, k: nat, l: nat)
    requires h.recognition.Some?
    requires k < l < |es| && es[k].ResultEvent? && es[l].ResultEvent?
    ensures Committed(es[k].results, MarkOf(Run(h, es[..k])))
            !! Committed(es[l].results, MarkOf(Run(h, es[..l])))
  {
    var hk := Run(h, es[..k]);
    RunKeepsEngine(h, es[..k]);
    MarkNeverDecreases(h, es, k + 1, l);
    RunPrefix(h, es, k);
    forall j | j in Committed(es[k].results, MarkOf(hk))
      ensures j !in Committed(es[l].results, MarkOf(Run(h, es[..l])))
    {
      assert j <= MarkOf(Run(h, es[..k + 1]));
    }
  }

  /** Without a reset, the transcript only grows: every earlier transcript is
      a prefix of every later one. */
  lemma {:induction false} AppendOnlyWithoutReset(h: Hook, es: seq<Event>)
    requires forall i :: 0 <= i < |es| ==> !es[i].ResetCall?
    ensures h.transcript <= Run(h, es).transcript
    decreases |es|
  {
    if es != [] {
      var init := es[..|es| - 1];
      assert forall i :: 0 <= i < |init| ==> !init[i].ResetCall? by {
        forall i | 0 <= i < |init| ensures !init[i].ResetCall? {
          assert init[i] == es[i];
        }
      }
      AppendOnlyWithoutReset(h, init);
    }
  }

  // ---------------------------------------------------------------------------
  // Start, stop and errors
  // ---------------------------------------------------------------------------

  /** A successful start followed by a successful stop leaves the hook idle
      with no error, transcript and mark untouched. */
  lemma StartThenStop(h: Hook)
    requires h.recognition.Some?
    ensures StopListening(StartListening(h, Returns), Returns) == h.(isListening := false, error := None)
  {
  }

  /** A recorded engine error is cleared by the next successful start, and by
      nothing else in the hook. */
  lemma ErrorClearedOnlyByStart(h: Hook, code: string, e: Event)
    requires h.recognition.Some?
    ensures Step(OnError(h, code), e).error.None? <==> e == StartCall(Returns)
  {
  }

  // ---------------------------------------------------------------------------
  // The end handler's guard
  // ---------------------------------------------------------------------------

  /** Along any run, the flag the as-written end handler reads is the one
      captured at creation, which is false. */
  lemma {:induction false} CapturedFlagStaysFalse(es: seq<Event>)
    ensures Run(Mounted(true), es).recognition.Some?
    ensures !Run(Mounted(true), es).recognition.value.listeningAtCreation
    decreases |es|
  {
    if es != [] {
      CapturedFlagStaysFalse(es[..|es| - 1]);
      StepKeepsEngine(Run(Mounted(true), es[..|es| - 1]), es[|es| - 1]);
    }
  }

  /** As written, the end handler never restarts the engine, in any run. */
  lemma StaleGuardNeverRestarts(es: seq<Event>, restart: EngineCall)
    ensures var h := Run(Mounted(true), es);
            h.recognition.Some? && !OnEndAsWritten(h, restart).restartAttempted
  {
    CapturedFlagStaysFalse(es);
  }

  /** The input that shows it: after a successful start the hook is listening,
      yet the as-written end handler does not restart; the intended one does. */
  lemma StaleGuardCounterexample()
    ensures var h := Step(Mounted(true), StartCall(Returns));
            && h.isListening
            && !OnEndAsWritten(h, Returns).restartAttempted
            && OnEndIntended(h, Returns).restarted
  {
  }
}
