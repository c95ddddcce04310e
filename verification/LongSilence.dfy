/** A recording that streaming transcribes and a batch call refuses, for want of decoder steps. */
module LongSilence {
  import opened Prelude
  import opened Pcm
  import opened Resampler
  import opened Vad
  import opened Transcription
  import opened SttEngineApi

  predicate Silent(frame: Frame) {
    forall i :: 0 <= i < |frame| ==> frame[i] == 0.0
  }

  predicate AllSilent(frames: seq<Frame>) {
    forall i :: 0 <= i < |frames| ==> |frames[i]| > 0 && Silent(frames[i])
  }

  lemma {:induction false} SilenceHasNoEnergy(frame: Frame)
    requires Silent(frame)
    ensures SumOfSquares(frame) == 0.0
  {
    if |frame| > 0 {
      SilenceHasNoEnergy(frame[..|frame| - 1]);
    }
  }

  lemma SilenceIsUnvoiced(tuning: Tuning, frame: Frame)
    requires tuning.config.rmsThreshold == 0.5 && frame != [] && Silent(frame)
    ensures !tuning.Voiced(frame)
  {
    hide SumOfSquares;
    SilenceHasNoEnergy(frame);
    NoQuotient(SumOfSquares(frame), |frame| as real);
  }

  lemma NoQuotient(sum: real, n: real)
    requires sum == 0.0 && n > 0.0
    ensures sum / n == 0.0
  {
    var quotient := sum / n;
    assert quotient * n == sum;
    NoFactor(quotient, n);
  }

  lemma NoFactor(x: real, n: real)
    requires x * n == 0.0 && n > 0.0
    ensures x == 0.0
  {
  }

  /** Silence opens no utterance. */
  lemma {:induction false} SilenceNeverOpens(tuning: Tuning, h: seq<Frame>)
    requires tuning.Valid() && tuning.config.rmsThreshold == 0.5 && AllSilent(h)
    ensures tuning.Onset(h).None?
  {
    hide Tuning.Voiced, Tuning.MinSamples, Silent;
    if |h| > 0 {
      SilenceNeverOpens(tuning, h[..|h| - 1]);
      var last := h[|h| - 1];
      SilenceIsUnvoiced(tuning, last);
      tuning.Thresholds();
    }
  }

  lemma {:induction false} SilenceHasNoUtterances(setup: Setup, frames: seq<Frame>)
    requires setup.Valid() && setup.vad.rmsThreshold == 0.5 && AllSilent(frames)
    ensures setup.Detector().SinceReset(frames) == frames && setup.Utterances(frames) == []
  {
    hide Setup.Valid, Tuning.Onset, Tuning.Voiced, Tuning.UnvoicedRun, Tuning.UtteranceLength, Silent;
    if |frames| > 0 {
      var init, last := frames[..|frames| - 1], frames[|frames| - 1];
      SilenceHasNoUtterances(setup, init);
      assert init + [last] == frames;
      DetectorIsValid(setup);
      SilenceNeverOpens(setup.Detector(), frames);
    }
  }

  lemma DetectorIsValid(setup: Setup)
    requires setup.Valid()
    ensures setup.Detector().Valid()
  {
  }

  /** Whatever its texts, a recognizer that takes one decoder step for each sample. */
  function Stepping(partialText: seq<real> -> string, finalText: seq<real> -> string): Recognizer {
    Recognizer(partialText, finalText, (accepted, samples) => |samples|, accepted => 0)
  }

  function Quiet(recognizer: Recognizer): Setup {
    Setup(recognizer, VadConfig(0.5, 100, 100, 1000), AudioLimits(200_000, 10_000), 200_000, 16_000)
  }

  function Silence(): (bytes: seq<Byte>)
    ensures |bytes| == 200_000 && forall i :: 0 <= i < |bytes| ==> bytes[i] == 0
  {
    seq(200_000, i => 0)
  }

  lemma SilenceIsAccepted(recognizer: Recognizer)
    ensures var setup := Quiet(recognizer);
            && setup.Valid() && setup.Acceptable(Silence())
            && |setup.Converted(Silence())| == 100_000 && Silent(setup.Converted(Silence()))
            && setup.Utterances(FramesOf(setup.Converted(Silence()))) == []
  {
    hide Silence, Resampled, Setup.Utterances, FramesOf;
    var setup := Quiet(recognizer);
    var samples := Decode(Silence());
    ResampledSameRate(samples, 16_000);
    forall i | 0 <= i < |samples|
      ensures samples[i] == 0.0
    {
      assert samples[i] == SampleOf(Silence()[2 * i], Silence()[2 * i + 1]);
    }
    FramesAreSilent(samples);
    SilenceHasNoUtterances(setup, FramesOf(samples));
  }

  lemma FramesAreSilent(samples: seq<real>)
    requires Silent(samples)
    ensures AllSilent(FramesOf(samples))
  {
  }

  /**
   * Six and a quarter seconds of silence: every frame is well within what the recognizer can take, so streaming
   * answers; the whole recording in one call is 100 000 decoder steps, so batch fails.
   */
  lemma BatchFailsWhereStreamAnswers(partialText: seq<real> -> string, finalText: seq<real> -> string)
    ensures var recognizer := Stepping(partialText, finalText);
            var setup := Quiet(recognizer);
            var audio := MonoPcm(16_000, Decode(Silence()));
            && recognizer.KeepsUp() && setup.Valid() && setup.Acceptable(Silence()) && audio.Valid()
            && setup.FinishOutcome(Silence()) == Success(Transcript(Final, finalText(setup.Converted(Silence()))))
            && BatchOutcome(recognizer, setup.limits, audio) == Failure(Engine)
  {
    hide Silence, Resampled, Setup.Converted, Setup.Valid, Setup.Utterances, FramesOf, Setup.FinishOutcome, BatchOutcome,
         Decode, Setup.Acceptable;
    var setup := Quiet(Stepping(partialText, finalText));
    SilenceIsAccepted(Stepping(partialText, finalText));
    setup.FinishMatchesBatch(Silence());
    BatchAgreesWithStream(setup, Silence());
  }
}
