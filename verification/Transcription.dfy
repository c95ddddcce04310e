/**
 * What a realtime transcription is, as a function of the recording alone: the PCM bytes are decoded,
 * resampled to the engine rate, cut into frames, and grouped into utterances by the voice detector.
 * Nothing here mentions transport chunks.
 */
module Transcription {
  import opened Prelude
  import opened Pcm
  import opened Resampler
  import opened Vad

  const ENGINE_SAMPLE_RATE: nat := 16000
  const VAD_FRAME_SAMPLES: nat := 320

  datatype SttError = InvalidInput | Busy | Cancelled | DeadlineExceeded | Audio | Engine

  datatype TranscriptKind = Interim | Final

  datatype Transcript = Transcript(kind: TranscriptKind, text: string)

  /** A native call fails once the decoder has taken this many steps in it. */
  const MAX_DECODE_STEPS: nat := 100_000

  /**
   * A deterministic recognizer: its hypotheses depend only on the audio its stream has accepted, and so does the
   * number of decoder steps it takes to accept more audio, and to finish.
   */
  datatype Recognizer = Recognizer(
    partialText: seq<real> -> string,
    finalText: seq<real> -> string,
    acceptSteps: (seq<real>, seq<real>) -> nat,
    finishSteps: seq<real> -> nat)
  {
    predicate CanAccept(accepted: seq<real>, samples: seq<real>) {
      acceptSteps(accepted, samples) < MAX_DECODE_STEPS
    }

    predicate CanFinish(accepted: seq<real>) {
      finishSteps(accepted) < MAX_DECODE_STEPS
    }

    /** It keeps up with audio that comes in frames. */
    ghost predicate KeepsUp() {
      && (forall a: seq<real>, s: seq<real> :: |s| <= VAD_FRAME_SAMPLES ==> CanAccept(a, s))
      && (forall a: seq<real> :: CanFinish(a))
    }
  }

  /** What a session remembers about the frames it has processed, besides the updates it returned. */
  datatype Progress = Progress(
    heard: seq<Frame>,
    accepted: seq<real>,
    hasAudio: bool,
    lastInterim: string,
    lastFinal: Option<string>,
    retired: seq<seq<real>>)

  /** `chunks_exact`: the complete frames of a recording. */
  function FramesOf(samples: seq<real>): (frames: seq<Frame>)
    ensures |frames| == |samples| / VAD_FRAME_SAMPLES
    ensures forall i :: 0 <= i < |frames| ==> |frames[i]| == VAD_FRAME_SAMPLES
  {
    seq(|samples| / VAD_FRAME_SAMPLES, i requires 0 <= i < |samples| / VAD_FRAME_SAMPLES =>
      samples[i * VAD_FRAME_SAMPLES..(i + 1) * VAD_FRAME_SAMPLES])
  }

  /** The samples after the last complete frame. */
  function ResidualOf(samples: seq<real>): (rest: seq<real>)
    ensures |rest| == |samples| % VAD_FRAME_SAMPLES
  {
    samples[|samples| / VAD_FRAME_SAMPLES * VAD_FRAME_SAMPLES..]
  }

  /** A frame is 320 samples, 20 milliseconds at the engine's 16 kHz. */
  lemma FrameIs(samples: seq<real>, i: nat)
    ensures |FramesOf(samples)| == |samples| / 320 && |ResidualOf(samples)| == |samples| % 320
    ensures i < |FramesOf(samples)| ==> FramesOf(samples)[i] == samples[320 * i..320 * i + 320]
    ensures 1000 * 320 == 20 * ENGINE_SAMPLE_RATE
  {
  }

  lemma FramesPrefix(a: seq<real>, b: seq<real>)
    requires a <= b
    ensures FramesOf(a) <= FramesOf(b)
  {
    var fa, fb := FramesOf(a), FramesOf(b);
    forall i | 0 <= i < |fa|
      ensures fa[i] == fb[i]
    {
      var from, to := i * VAD_FRAME_SAMPLES, (i + 1) * VAD_FRAME_SAMPLES;
      assert to <= |a|;
      assert fa[i] == a[from..to] && fb[i] == b[from..to];
      assert a[from..to] == b[from..to];
    }
  }

  /** Frames and residual together are the recording. */
  lemma {:induction false} FramesConserve(samples: seq<real>)
    ensures Flatten(FramesOf(samples)) + ResidualOf(samples) == samples
    decreases |samples|
  {
    var n := |samples| / VAD_FRAME_SAMPLES;
    if n > 0 {
      var cut := n * VAD_FRAME_SAMPLES;
      var shorter := samples[..cut - VAD_FRAME_SAMPLES];
      FramesConserve(shorter);
      FramesPrefix(shorter, samples);
      assert |FramesOf(shorter)| == n - 1;
      assert FramesOf(samples)[..n - 1] == FramesOf(shorter);
      assert FramesOf(samples)[n - 1] == samples[cut - VAD_FRAME_SAMPLES..cut];
    }
  }

  /** Frames produced from a carried residual and new samples continue the frame sequence. */
  lemma FramesContinue(before: seq<real>, after: seq<real>)
    requires before <= after
    ensures FramesOf(before) <= FramesOf(after)
    ensures var carried := ResidualOf(before) + after[|before|..];
            && FramesOf(after) == FramesOf(before) + FramesOf(carried)
            && ResidualOf(after) == ResidualOf(carried)
  {
    FramesPrefix(before, after);
    var k := |before| / VAD_FRAME_SAMPLES;
    var carried := ResidualOf(before) + after[|before|..];
    assert carried == after[k * VAD_FRAME_SAMPLES..];
    assert |after| / VAD_FRAME_SAMPLES == k + |carried| / VAD_FRAME_SAMPLES;
    var fa, fc := FramesOf(after), FramesOf(carried);
    forall i | 0 <= i < |fc|
      ensures fa[k + i] == fc[i]
    {
      SliceOfRest(after, k * VAD_FRAME_SAMPLES, i * VAD_FRAME_SAMPLES, (i + 1) * VAD_FRAME_SAMPLES);
      assert fc[i] == carried[i * VAD_FRAME_SAMPLES..(i + 1) * VAD_FRAME_SAMPLES];
      assert fa[k + i] == after[(k + i) * VAD_FRAME_SAMPLES..(k + i + 1) * VAD_FRAME_SAMPLES];
    }
  }

  lemma SliceOfRest(s: seq<real>, start: nat, from: nat, to: nat)
    requires from <= to && start + to <= |s|
    ensures s[start..][from..to] == s[start + from..start + to]
  {
  }

  /** Cutting the complete frames off a buffer. */
  lemma FramesOfComplete(samples: seq<real>)
    ensures var complete := |samples| / VAD_FRAME_SAMPLES * VAD_FRAME_SAMPLES;
            && complete <= |samples|
            && FramesOf(samples[..complete]) == FramesOf(samples)
            && ResidualOf(samples) == samples[complete..]
  {
    var complete := |samples| / VAD_FRAME_SAMPLES * VAD_FRAME_SAMPLES;
    FramesPrefix(samples[..complete], samples);
  }

  /** An engine and session configuration. */
  datatype Setup = Setup(
    recognizer: Recognizer,
    vad: VadConfig,
    limits: AudioLimits,
    maxChunkBytes: nat,
    sourceRate: nat)
  {
    predicate Valid() {
      && limits.Valid()
      && maxChunkBytes > 0
      && SupportedRate(sourceRate)
      && Detector().Valid()
    }

    function Detector(): Tuning {
      Tuning(vad, ENGINE_SAMPLE_RATE)
    }

    /** The recording at the engine rate. */
    function Converted(bytes: seq<Byte>): seq<real>
      requires Valid()
    {
      Resampled(Decode(bytes), sourceRate, ENGINE_SAMPLE_RATE)
    }

    /** The closed utterances of a frame sequence, in order. */
    function Utterances(frames: seq<Frame>): (u: seq<seq<Frame>>)
      requires Detector().Frames(frames)
      ensures forall i :: 0 <= i < |u| ==> Detector().Frames(u[i])
    {
      if |frames| == 0 then []
      else
        var init := frames[..|frames| - 1];
        var h := Detector().SinceReset(init) + [frames[|frames| - 1]];
        if Detector().Closes(h) then Utterances(init) + [h] else Utterances(init)
    }

    /** The last non-empty hypothesis for an utterance heard so far. */
    function LastInterim(h: seq<Frame>): string {
      if |h| == 0 then ""
      else
        var text := recognizer.partialText(Flatten(h));
        if text != "" then text else LastInterim(h[..|h| - 1])
    }

    /** The update caused by the last frame of `h`, the frames heard since the previous utterance. */
    function UpdateFor(h: seq<Frame>): seq<Transcript>
      requires Detector().Frames(h) && h != []
    {
      if Detector().Closes(h) then [Transcript(Final, recognizer.finalText(Flatten(h)))]
      else
        var text := recognizer.partialText(Flatten(h));
        if text != "" && text != LastInterim(h[..|h| - 1]) then [Transcript(Interim, text)] else []
    }

    /** The text of the last closed utterance. */
    function LastFinal(utterances: seq<seq<Frame>>): Option<string> {
      if |utterances| == 0 then None else Some(recognizer.finalText(Flatten(utterances[|utterances| - 1])))
    }

    lemma LastFinalSnoc(utterances: seq<seq<Frame>>, h: seq<Frame>)
      ensures LastFinal(utterances + [h]) == Some(recognizer.finalText(Flatten(h)))
    {
    }

    /** The two ways one more frame can change the update list and the latest interim. */
    lemma UpdateCases(before: seq<Frame>, frame: Frame)
      requires Detector().Frames(before) && |frame| > 0
      ensures var h := before + [frame];
              var text := recognizer.partialText(Flatten(h));
              && Detector().Frames(h)
              && LastInterim(h) == (if text != "" then text else LastInterim(before))
              && UpdateFor(h) ==
                 if Detector().Closes(h) then [Transcript(Final, recognizer.finalText(Flatten(h)))]
                 else if text != "" && text != LastInterim(before) then [Transcript(Interim, text)]
                 else []
    {
      assert (before + [frame])[..|before|] == before;
    }

    /** The recognizer side of a session after these frames. */
    function ProgressAfter(frames: seq<Frame>): Progress
      requires Detector().Frames(frames)
    {
      var h := Detector().SinceReset(frames);
      Progress(h, Flatten(h), |h| > 0, LastInterim(h), LastFinal(Utterances(frames)), Streams(Utterances(frames)))
    }

    /** Before anything has been heard. */
    lemma NothingHeard()
      requires Valid()
      ensures Decode([]) == [] && Converted([]) == [] && FramesOf([]) == [] && ResidualOf([]) == []
      ensures Detector().Frames([]) && ProgressAfter([]) == Progress([], [], false, "", None, [])
    {
      NoProgress();
    }

    lemma NoProgress()
      ensures ProgressAfter([]) == Progress([], [], false, "", None, [])
    {
    }

    /** One more frame, as the frame loop sees it: close the utterance and its stream, or keep listening. */
    lemma ProgressStep(frames: seq<Frame>, frame: Frame)
      requires Detector().Frames(frames) && |frame| > 0
      ensures Detector().Frames(frames + [frame])
      ensures var p, q := ProgressAfter(frames), ProgressAfter(frames + [frame]);
              && Detector().Frames(p.heard)
              && Detector().Frames(p.heard + [frame])
              && var accepted := p.accepted + frame;
                 var ended := Detector().EventOf(p.heard + [frame]) == Ended;
                 var text := recognizer.partialText(accepted);
                 var final := recognizer.finalText(accepted);
                 var isNew := text != "" && text != p.lastInterim;
                 && FrameUpdates(frames + [frame]) == FrameUpdates(frames)
                      + (if ended then [Transcript(Final, final)] else if isNew then [Transcript(Interim, text)] else [])
                 && q == if ended then Progress([], [], false, "", Some(final), p.retired + [accepted])
                         else Progress(p.heard + [frame], accepted, true, if isNew then text else p.lastInterim,
                                       p.lastFinal, p.retired)
    {
      hide Tuning.VoicedRun, Tuning.UnvoicedRun, Tuning.Onset, Tuning.UtteranceLength, Tuning.Closes, Tuning.SinceReset,
           UpdateFor, LastInterim, Utterances, FrameUpdates, Streams, Flatten, LastFinal, Tuning.Events, Detector,
           Tuning.Frames, Tuning.EventOf;
      var before := Detector().SinceReset(frames);
      var h := before + [frame];
      OneMoreFrame(frames, frame);
      EndedIffCloses(h);
      UpdateCases(before, frame);
      LastFinalSnoc(Utterances(frames), h);
      FlattenSnoc(before, frame);
      NoProgressText();
      StreamsSnoc(Utterances(frames), h);
    }

    lemma StreamsSnoc(utterances: seq<seq<Frame>>, h: seq<Frame>)
      ensures Streams(utterances + [h]) == Streams(utterances) + [Flatten(h)]
    {
    }

    lemma NoProgressText()
      ensures LastInterim([]) == "" && Flatten<real>([]) == []
    {
    }

    /** Every update caused by a frame sequence. */
    function FrameUpdates(frames: seq<Frame>): seq<Transcript>
      requires Detector().Frames(frames)
    {
      if |frames| == 0 then []
      else
        var init := frames[..|frames| - 1];
        FrameUpdates(init) + UpdateFor(Detector().SinceReset(init) + [frames[|frames| - 1]])
    }

    /** One more frame: what it does to the utterances and the updates. */
    lemma OneMoreFrame(init: seq<Frame>, last: Frame)
      requires Detector().Frames(init) && last != []
      ensures Detector().Frames(init + [last]) && Detector().Frames(Detector().SinceReset(init) + [last])
      ensures var h := Detector().SinceReset(init) + [last];
              && Detector().SinceReset(init + [last]) == (if Detector().Closes(h) then [] else h)
              && Utterances(init + [last]) == (if Detector().Closes(h) then Utterances(init) + [h] else Utterances(init))
              && FrameUpdates(init + [last]) == FrameUpdates(init) + UpdateFor(h)
              && Detector().Events(init + [last]) == Detector().Events(init) + [Detector().EventOf(h)]
    {
      assert (init + [last])[..|init|] == init;
    }

    /** Every update a recording causes before it is finished. */
    function Updates(bytes: seq<Byte>): seq<Transcript>
      requires Valid()
    {
      FrameUpdates(FramesOf(Converted(bytes)))
    }

    lemma {:induction false} FrameUpdatesPrefix(a: seq<Frame>, b: seq<Frame>)
      requires Detector().Frames(a) && Detector().Frames(b)
      ensures FrameUpdates(a) <= FrameUpdates(a + b)
    {
      if |b| == 0 {
        assert a + b == a;
      } else {
        assert (a + b)[..|a + b| - 1] == a + b[..|b| - 1];
        FrameUpdatesPrefix(a, b[..|b| - 1]);
      }
    }

    /** More audio never retracts or rewrites an update. */
    lemma UpdatesPrefix(a: seq<Byte>, b: seq<Byte>)
      requires Valid()
      ensures Converted(a) <= Converted(a + b)
      ensures FramesOf(Converted(a)) <= FramesOf(Converted(a + b))
      ensures Updates(a) <= Updates(a + b)
    {
      DecodePrefix(a, b);
      var da, dab := Decode(a), Decode(a + b);
      assert dab == da + dab[|da|..];
      ResampledPrefix(da, dab[|da|..], sourceRate, ENGINE_SAMPLE_RATE);
      var fa, fab := FramesOf(Converted(a)), FramesOf(Converted(a + b));
      FramesPrefix(Converted(a), Converted(a + b));
      assert fab == fa + fab[|fa|..];
      FrameUpdatesPrefix(fa, fab[|fa|..]);
    }

    /** What `push_pcm16` answers after `history` on a live context with a working engine. */
    function PushOutcome(history: seq<Byte>, bytes: seq<Byte>): Result<seq<Transcript>, SttError>
      requires Valid()
    {
      var total := history + bytes;
      if bytes == [] || |bytes| > maxChunkBytes then Failure(InvalidInput)
      else if limits.Admit(|total|, sourceRate, |total| / 2).Failure? then Failure(Audio)
      else if |total| / 2 > |history| / 2 && TooLarge(|total| / 2, ENGINE_SAMPLE_RATE) then Failure(Audio)
      else
        UpdatesPrefix(history, bytes);
        Success(Updates(total)[|Updates(history)|..])
    }

    /** How the pipeline's buffers move when bytes complete at least one sample. */
    lemma PushContinues(history: seq<Byte>, bytes: seq<Byte>)
      requires Valid()
      ensures var before, after := Converted(history), Converted(history + bytes);
              && before <= after
              && var carried := ResidualOf(before) + after[|before|..];
                 && FramesOf(after) == FramesOf(before) + FramesOf(carried)
                 && ResidualOf(after) == ResidualOf(carried)
      ensures Updates(history) <= Updates(history + bytes)
    {
      UpdatesPrefix(history, bytes);
      FramesContinue(Converted(history), Converted(history + bytes));
    }

    /** `push_pcm16` gets past its guards and its decoder. */
    predicate Admitted(history: seq<Byte>, bytes: seq<Byte>) {
      && 0 < |bytes| <= maxChunkBytes
      && limits.Admit(|history + bytes|, sourceRate, |history + bytes| / 2).Success?
    }

    /** The refusals made before any audio is looked at. */
    lemma PushRefused(history: seq<Byte>, bytes: seq<Byte>)
      requires Valid()
      ensures bytes == [] || |bytes| > maxChunkBytes ==> PushOutcome(history, bytes) == Failure(InvalidInput)
      ensures 0 < |bytes| <= maxChunkBytes && !Admitted(history, bytes) ==> PushOutcome(history, bytes) == Failure(Audio)
    {
      hide Converted, FramesOf, FrameUpdates, TooLarge, AudioLimits.Admit;
    }

    /** Bytes that complete no sample change nothing. */
    lemma PushOfNoSample(history: seq<Byte>, bytes: seq<Byte>)
      requires Valid()
      requires |Decode(history + bytes)| == |Decode(history)|
      ensures Decode(history + bytes) == Decode(history)
      ensures Converted(history + bytes) == Converted(history)
      ensures Admitted(history, bytes) ==> PushOutcome(history, bytes) == Success([])
    {
      hide Resampled, FramesOf, FrameUpdates, TooLarge, AudioLimits.Admit;
      DecodePrefix(history, bytes);
      assert Decode(history + bytes) == Decode(history);
      assert Updates(history + bytes) == Updates(history);
      assert Updates(history)[|Updates(history)|..] == [];
    }

    /** Bytes that take the recording past the resampler's arithmetic are refused; others deliver what they add. */
    lemma PushOfSamples(history: seq<Byte>, bytes: seq<Byte>)
      requires Valid()
      requires |Decode(history + bytes)| > |Decode(history)|
      ensures Admitted(history, bytes) && TooLarge(|Decode(history + bytes)|, ENGINE_SAMPLE_RATE) ==>
                PushOutcome(history, bytes) == Failure(Audio)
    {
      hide Converted, FramesOf, FrameUpdates, TooLarge, AudioLimits.Admit;
    }

    lemma PushAnswers(history: seq<Byte>, bytes: seq<Byte>, updates: seq<Transcript>)
      requires Valid()
      requires |Decode(history + bytes)| > |Decode(history)|
      requires FrameUpdates(FramesOf(Converted(history + bytes))) == FrameUpdates(FramesOf(Converted(history))) + updates
      ensures Admitted(history, bytes) && !TooLarge(|Decode(history + bytes)|, ENGINE_SAMPLE_RATE) ==>
                PushOutcome(history, bytes) == Success(updates)
    {
      hide Converted, FramesOf, FrameUpdates, TooLarge, AudioLimits.Admit;
    }

    /** The audio of the last utterance: what is open, or else the last one closed. */
    function LastUtterance(bytes: seq<Byte>): Option<seq<real>>
      requires Valid()
    {
      var frames := FramesOf(Converted(bytes));
      var open := Flatten(Detector().SinceReset(frames)) + ResidualOf(Converted(bytes));
      var closed := Utterances(frames);
      if open != [] then Some(open)
      else if closed != [] then Some(Flatten(closed[|closed| - 1]))
      else None
    }

    /** What `finish` answers after `history` on a live context with a working engine. */
    function FinishOutcome(history: seq<Byte>): Result<Transcript, SttError>
      requires Valid()
    {
      if |history| % 2 != 0 || history == [] then Failure(Audio)
      else
        match LastUtterance(history)
        case Some(audio) => Success(Transcript(Final, recognizer.finalText(audio)))
        case None => Failure(Audio)
    }

    lemma FinishRefused(history: seq<Byte>)
      requires Valid()
      ensures |history| % 2 != 0 || history == [] ==> FinishOutcome(history) == Failure(Audio)
    {
    }

    /** `finish` by cases on what the session holds. */
    lemma FinishCases(history: seq<Byte>)
      requires Valid()
      ensures var frames, rest := FramesOf(Converted(history)), ResidualOf(Converted(history));
              && (|history| % 2 != 0 || history == [] ==> FinishOutcome(history) == Failure(Audio))
              && (|history| % 2 == 0 && history != [] ==>
                    var p := ProgressAfter(frames);
                    && p.hasAudio == (|p.accepted| > 0)
                    && FinishOutcome(history) ==
                       if rest != [] || p.hasAudio
                       then Success(Transcript(Final, recognizer.finalText(p.accepted + rest)))
                       else if p.lastFinal.Some? then Success(Transcript(Final, p.lastFinal.value))
                       else Failure(Audio))
    {
      hide Converted, FramesOf, ResidualOf, Utterances, Tuning.SinceReset, LastInterim, Streams;
      var frames := FramesOf(Converted(history));
      OpenHasAudio(Detector().SinceReset(frames));
    }

    lemma OpenHasAudio(h: seq<Frame>)
      requires Detector().Frames(h)
      ensures |h| > 0 <==> |Flatten(h)| > 0
    {
    }

    /** Closed utterances followed by the open one are exactly the frames: no frame is lost or repeated. */
    lemma {:induction false} UtterancesPartition(frames: seq<Frame>)
      requires Detector().Frames(frames)
      ensures Flatten(Utterances(frames)) + Detector().SinceReset(frames) == frames
    {
      hide *;
      NoFrames();
      FlattenNil<Frame>([]);
      if |frames| == 0 {
        assert frames == [];
      } else {
        var init, last := frames[..|frames| - 1], frames[|frames| - 1];
        PrefixFrames(frames);
        UtterancesPartition(init);
        OneMoreFrame(init, last);
        assert init + [last] == frames;
        var h := Detector().SinceReset(init) + [last];
        FlattenSnoc(Utterances(init), h);
        assert Flatten(Utterances(init)) + h == frames;
        assert frames + [] == frames;
      }
    }

    /** All but the last frame of a frame sequence, and the last, are frames. */
    lemma PrefixFrames(frames: seq<Frame>)
      requires Detector().Frames(frames)
      ensures |frames| > 0 ==> Detector().Frames(frames[..|frames| - 1]) && |frames[|frames| - 1]| > 0
    {
    }

    lemma NoFrames()
      ensures Utterances([]) == [] && Detector().SinceReset([]) == [] && FrameUpdates([]) == []
      ensures Detector().Events([]) == []
    {
    }

    lemma {:induction false} FlattenNested(parts: seq<seq<Frame>>)
      ensures Flatten(Flatten(parts)) == Flatten(Streams(parts))
    {
      if |parts| > 0 {
        var init := parts[..|parts| - 1];
        FlattenNested(init);
        FlattenAppend(Flatten(init), parts[|parts| - 1]);
        assert Streams(parts)[..|parts| - 1] == Streams(init);
      }
    }

    /** The audio given to each finished recognizer stream. */
    function Streams(utterances: seq<seq<Frame>>): (s: seq<seq<real>>)
      ensures |s| == |utterances|
    {
      seq(|utterances|, i requires 0 <= i < |utterances| => Flatten(utterances[i]))
    }

    /** Sample conservation: all recognizer streams in order, then the residual, are the converted recording. */
    lemma SamplesConserved(bytes: seq<Byte>)
      requires Valid()
      ensures var frames := FramesOf(Converted(bytes));
              Flatten(Streams(Utterances(frames))) + Flatten(Detector().SinceReset(frames)) + ResidualOf(Converted(bytes))
              == Converted(bytes)
    {
      var frames := FramesOf(Converted(bytes));
      FramesConserve(Converted(bytes));
      UtterancesPartition(frames);
      FlattenNested(Utterances(frames));
      FlattenAppend(Flatten(Utterances(frames)), Detector().SinceReset(frames));
    }

    /** A recording with a sample has a sample at the engine rate. */
    lemma SomethingConverted(bytes: seq<Byte>)
      requires Valid() && |bytes| >= 2
      ensures |Converted(bytes)| > 0
    {
      hide Decode, Tap;
      assert |Decode(bytes)| > 0;
    }

    lemma NoStreams(utterances: seq<seq<Frame>>)
      requires |utterances| == 0
      ensures Flatten(Streams(utterances)) == []
    {
    }

    /** What is heard is in the last utterance or in an earlier one. */
    lemma SomeUtterance(bytes: seq<Byte>)
      requires Valid() && |bytes| >= 2
      ensures LastUtterance(bytes).Some?
    {
      hide Converted, FramesOf, ResidualOf, Utterances, Tuning.SinceReset, Streams;
      SamplesConserved(bytes);
      SomethingConverted(bytes);
      var closed := Utterances(FramesOf(Converted(bytes)));
      if |closed| == 0 {
        NoStreams(closed);
      }
    }

    /** Any whole recording has a last utterance, so `finish` fails exactly on odd or empty input. */
    lemma FinishTotal(bytes: seq<Byte>)
      requires Valid()
      ensures FinishOutcome(bytes).Success? <==> |bytes| % 2 == 0 && bytes != []
    {
      hide LastUtterance;
      if |bytes| % 2 == 0 && bytes != [] {
        SomeUtterance(bytes);
      }
    }

    /** A recording in which no utterance closes is finished with the text of the whole recording. */
    lemma FinishMatchesBatch(bytes: seq<Byte>)
      requires Valid() && |bytes| % 2 == 0 && bytes != []
      requires |Utterances(FramesOf(Converted(bytes)))| == 0
      ensures FinishOutcome(bytes) == Success(Transcript(Final, recognizer.finalText(Converted(bytes))))
    {
      hide Converted, FramesOf, ResidualOf, Utterances, Tuning.SinceReset, Streams;
      FinishTotal(bytes);
      SamplesConserved(bytes);
      var frames := FramesOf(Converted(bytes));
      assert Flatten(Streams(Utterances(frames))) == [];
      var open := Flatten(Detector().SinceReset(frames)) + ResidualOf(Converted(bytes));
      assert open == Converted(bytes);
      assert |Utterances(frames)| == 0;
      assert LastUtterance(bytes).Some?;
    }

    /** The interim updates of one utterance. */
    function Interims(h: seq<Frame>): seq<Transcript> {
      if |h| == 0 then []
      else
        var text := recognizer.partialText(Flatten(h));
        Interims(h[..|h| - 1])
        + (if text != "" && text != LastInterim(h[..|h| - 1]) then [Transcript(Interim, text)] else [])
    }

    /** All updates of one closed utterance: its interims, then its single final. */
    function UtteranceUpdates(h: seq<Frame>): seq<Transcript>
      requires h != []
    {
      Interims(h[..|h| - 1]) + [Transcript(Final, recognizer.finalText(Flatten(h)))]
    }

    function AllUtteranceUpdates(utterances: seq<seq<Frame>>): seq<Transcript>
      requires forall i :: 0 <= i < |utterances| ==> |utterances[i]| > 0
    {
      if |utterances| == 0 then []
      else
        AllUtteranceUpdates(utterances[..|utterances| - 1]) + UtteranceUpdates(utterances[|utterances| - 1])
    }

    lemma {:induction false} UtterancesNonEmpty(frames: seq<Frame>)
      requires Detector().Frames(frames)
      ensures forall i :: 0 <= i < |Utterances(frames)| ==> |Utterances(frames)[i]| > 0
    {
      if |frames| > 0 {
        UtterancesNonEmpty(frames[..|frames| - 1]);
      }
    }

    /** Updates come utterance by utterance: the interims of each, its one final, then the open interims. */
    lemma {:induction false} UpdatesByUtterance(frames: seq<Frame>)
      requires Detector().Frames(frames)
      ensures forall i :: 0 <= i < |Utterances(frames)| ==> |Utterances(frames)[i]| > 0
      ensures FrameUpdates(frames)
           == AllUtteranceUpdates(Utterances(frames)) + Interims(Detector().SinceReset(frames))
    {
      hide *;
      UtterancesNonEmpty(frames);
      NoFrames();
      NoUpdates();
      if |frames| == 0 {
        assert frames == [];
      } else {
        var init, last := frames[..|frames| - 1], frames[|frames| - 1];
        PrefixFrames(frames);
        UtterancesNonEmpty(init);
        UpdatesByUtterance(init);
        OneMoreFrame(init, last);
        assert init + [last] == frames;
        UpdateByUtterance(Utterances(init), Detector().SinceReset(init), last);
      }
    }

    lemma NoUpdates()
      ensures AllUtteranceUpdates([]) == [] && Interims([]) == [] && FinalTexts([]) == []
      ensures Finals([]) == [] && CountEnded([]) == 0
    {
    }

    /** The inductive step: one frame extends the open interims, or closes the utterance with its final. */
    lemma UpdateByUtterance(closed: seq<seq<Frame>>, open: seq<Frame>, last: Frame)
      requires forall i :: 0 <= i < |closed| ==> |closed[i]| > 0
      requires Detector().Frames(open + [last])
      ensures var h := open + [last];
              AllUtteranceUpdates(closed) + Interims(open) + UpdateFor(h)
              == if Detector().Closes(h) then AllUtteranceUpdates(closed + [h]) + Interims([])
                 else AllUtteranceUpdates(closed) + Interims(h)
    {
      var h := open + [last];
      assert h[..|h| - 1] == open;
      AllUpdatesSnoc(closed, h);
    }

    lemma AllUpdatesSnoc(utterances: seq<seq<Frame>>, h: seq<Frame>)
      requires h != []
      requires forall i :: 0 <= i < |utterances| ==> |utterances[i]| > 0
      ensures AllUtteranceUpdates(utterances + [h]) == AllUtteranceUpdates(utterances) + UtteranceUpdates(h)
    {
      assert (utterances + [h])[..|utterances|] == utterances;
    }

    /** Interims that are not empty, each different from the one before. */
    ghost predicate Differing(u: seq<Transcript>) {
      && (forall i :: 0 <= i < |u| ==> u[i].kind == Interim && u[i].text != "")
      && (forall i, j :: 0 <= i && j == i + 1 < |u| ==> u[i].text != u[j].text)
    }

    lemma NoneDiffer()
      ensures Differing([])
    {
    }

    lemma DifferingSnoc(u: seq<Transcript>, text: string)
      requires Differing(u) && text != "" && (|u| > 0 ==> u[|u| - 1].text != text)
      ensures Differing(u + [Transcript(Interim, text)])
    {
    }

    /** Within an utterance the interims are non-empty, consecutive ones differ, and the last is the latest text. */
    lemma {:induction false} InterimsDiffer(h: seq<Frame>)
      ensures var u := Interims(h);
              Differing(u) && LastInterim(h) == (if |u| == 0 then "" else u[|u| - 1].text)
    {
      hide Flatten, FrameUpdates, UpdateFor, Utterances, Setup.Valid, Differing;
      if |h| == 0 {
        NoneDiffer();
      } else {
        var init := h[..|h| - 1];
        InterimsDiffer(init);
        var u, text := Interims(init), recognizer.partialText(Flatten(h));
        if text != "" && text != LastInterim(init) {
          DifferingSnoc(u, text);
        } else {
          assert u + [] == u;
        }
      }
    }

    /**
     * What a client knows is up to date: after a frame that closes no utterance, if the recognizer has a hypothesis for the
     * audio since the last one, the latest update is an interim with that hypothesis.
     */
    lemma ClientIsUpToDate(frames: seq<Frame>)
      requires Valid() && Detector().Frames(frames) && Detector().SinceReset(frames) != []
      requires recognizer.partialText(Flatten(Detector().SinceReset(frames))) != ""
      ensures var updates := FrameUpdates(frames);
              |updates| > 0
              && updates[|updates| - 1]
                 == Transcript(Interim, recognizer.partialText(Flatten(Detector().SinceReset(frames))))
    {
      hide Flatten, FrameUpdates, UpdateFor, Utterances, Setup.Valid, Tuning.SinceReset, Interims;
      var h := Detector().SinceReset(frames);
      UpdatesByUtterance(frames);
      InterimsDiffer(h);
      LastInterimIs(h);
      var interims := Interims(h);
      assert |interims| > 0;
      IsInterim(interims);
      var updates := FrameUpdates(frames);
      assert updates[|updates| - 1] == interims[|interims| - 1];
    }

    lemma LastInterimIs(h: seq<Frame>)
      requires h != [] && recognizer.partialText(Flatten(h)) != ""
      ensures LastInterim(h) == recognizer.partialText(Flatten(h))
    {
    }

    lemma IsInterim(u: seq<Transcript>)
      requires Differing(u) && |u| > 0
      ensures u[|u| - 1].kind == Interim
    {
    }

    /** There is one final per Ended transition, and it carries the text of the utterance that ended. */
    lemma {:induction false} FinalsMatchUtterances(frames: seq<Frame>)
      requires Detector().Frames(frames)
      ensures Finals(FrameUpdates(frames)) == FinalTexts(Utterances(frames))
      ensures |Utterances(frames)| == CountEnded(Detector().Events(frames))
    {
      hide *;
      NoFrames();
      NoUpdates();
      if |frames| == 0 {
        assert frames == [];
      } else {
        var init, last := frames[..|frames| - 1], frames[|frames| - 1];
        PrefixFrames(frames);
        FinalsMatchUtterances(init);
        OneMoreFrame(init, last);
        assert init + [last] == frames;
        var h := Detector().SinceReset(init) + [last];
        FinalsAppend(FrameUpdates(init), UpdateFor(h));
        FinalsOfUpdate(h);
        FinalTextsSnoc(Utterances(init), h);
        CountEndedSnoc(Detector().Events(init), Detector().EventOf(h));
        EndedIffCloses(h);
      }
    }

    lemma EndedIffCloses(h: seq<Frame>)
      requires Detector().Frames(h) && |h| > 0
      ensures Detector().EventOf(h) == Ended <==> Detector().Closes(h)
    {
    }

    lemma FinalTextsSnoc(utterances: seq<seq<Frame>>, h: seq<Frame>)
      ensures FinalTexts(utterances + [h]) == FinalTexts(utterances) + [recognizer.finalText(Flatten(h))]
    {
    }

    lemma FinalsOfUpdate(h: seq<Frame>)
      requires Detector().Frames(h) && h != []
      ensures Finals(UpdateFor(h)) == (if Detector().Closes(h) then [recognizer.finalText(Flatten(h))] else [])
    {
      var u := UpdateFor(h);
      assert u == [] || (|u| == 1 && u[..0] == [] && Finals(u) == Finals([]) + (if u[0].kind == Final then [u[0].text] else []));
    }

    function FinalTexts(utterances: seq<seq<Frame>>): (t: seq<string>)
      ensures |t| == |utterances|
    {
      seq(|utterances|, i requires 0 <= i < |utterances| => recognizer.finalText(Flatten(utterances[i])))
    }

    /** Pushes the chunks in order onto a session that has accepted `history`: all updates, or the first error. */
    function PushAll(history: seq<Byte>, chunks: seq<seq<Byte>>): Result<seq<Transcript>, SttError>
      requires Valid()
    {
      if |chunks| == 0 then Success([])
      else
        var init := chunks[..|chunks| - 1];
        var before :- PushAll(history, init);
        var last :- PushOutcome(history + Flatten(init), chunks[|chunks| - 1]);
        Success(before + last)
    }

    /** Successful pushes deliver exactly the updates of the concatenated bytes. */
    lemma {:induction false} PushAllDelivers(history: seq<Byte>, chunks: seq<seq<Byte>>)
      requires Valid()
      ensures PushAll(history, chunks).Success? ==>
                Updates(history) + PushAll(history, chunks).value == Updates(history + Flatten(chunks))
    {
      hide *;
      if |chunks| == 0 {
        NoPushes(history, chunks);
      } else {
        var init := chunks[..|chunks| - 1];
        var last := chunks[|chunks| - 1];
        PushAllDelivers(history, init);
        PushDelivers(history + Flatten(init), last);
        LastPush(history, chunks);
      }
    }

    lemma NoPushes(history: seq<Byte>, chunks: seq<seq<Byte>>)
      requires Valid() && |chunks| == 0
      ensures PushAll(history, chunks) == Success([])
      ensures history + Flatten(chunks) == history
      ensures forall u: seq<Transcript> :: u + [] == u
    {
    }

    lemma LastPush(history: seq<Byte>, chunks: seq<seq<Byte>>)
      requires Valid() && |chunks| > 0
      ensures var init, last := chunks[..|chunks| - 1], chunks[|chunks| - 1];
              && history + Flatten(init) + last == history + Flatten(chunks)
              && PushAll(history, chunks) ==
                 match PushAll(history, init)
                 case Failure(e) => Failure(e)
                 case Success(before) =>
                   match PushOutcome(history + Flatten(init), last)
                   case Failure(e) => Failure(e)
                   case Success(updates) => Success(before + updates)
    {
    }

    /** A session that fails on some prefix of the chunks fails with that error. */
    lemma {:induction false} PushAllStops(history: seq<Byte>, chunks: seq<seq<Byte>>, k: nat)
      requires Valid() && k <= |chunks| && PushAll(history, chunks[..k]).Failure?
      ensures PushAll(history, chunks) == PushAll(history, chunks[..k])
      decreases |chunks|
    {
      if k == |chunks| {
        assert chunks[..k] == chunks;
      } else {
        var init := chunks[..|chunks| - 1];
        assert init[..k] == chunks[..k];
        PushAllStops(history, init, k);
      }
    }

    lemma PushDelivers(history: seq<Byte>, bytes: seq<Byte>)
      requires Valid()
      ensures PushOutcome(history, bytes).Success? ==>
                Updates(history) + PushOutcome(history, bytes).value == Updates(history + bytes)
    {
      hide Updates, Converted, FramesOf, Resampler.TooLarge, AudioLimits.Admit;
      UpdatesPrefix(history, bytes);
    }

    predicate LegalChunks(chunks: seq<seq<Byte>>) {
      forall i :: 0 <= i < |chunks| ==> 0 < |chunks[i]| <= maxChunkBytes
    }

    /** A recording whose length fits the limits and the resampler's arithmetic. */
    predicate Acceptable(bytes: seq<Byte>) {
      && limits.Admit(|bytes|, sourceRate, |bytes| / 2).Success?
      && (|bytes| >= 2 ==> !TooLarge(|bytes| / 2, ENGINE_SAMPLE_RATE))
    }

    lemma AcceptablePrefix(bytes: seq<Byte>, whole: seq<Byte>)
      requires bytes <= whole
      ensures Acceptable(whole) ==> Acceptable(bytes)
    {
      limits.AdmitMonotone(|bytes|, |whole|, sourceRate);
      if |bytes| >= 2 {
        TooLargeMonotone(|bytes| / 2, |whole| / 2, ENGINE_SAMPLE_RATE);
      }
    }

    /** Chunks of legal size are all accepted iff the whole recording is acceptable, whatever the split. */
    lemma {:induction false} PushAllAccepts(chunks: seq<seq<Byte>>)
      requires Valid() && LegalChunks(chunks)
      ensures PushAll([], chunks).Success? <==> chunks == [] || Acceptable(Flatten(chunks))
    {
      if |chunks| > 0 {
        var init := chunks[..|chunks| - 1];
        PushAllAccepts(init);
        AcceptablePrefix(Flatten(init), Flatten(chunks));
        assert [] + Flatten(init) == Flatten(init);
        assert LegalChunks(init);
      }
    }

    /** A whole session: open, push every chunk, finish. */
    function RunStream(chunks: seq<seq<Byte>>): Result<seq<Transcript>, SttError>
      requires Valid()
    {
      Finished(PushAll([], chunks), Flatten(chunks))
    }

    /** Appends the answer of `finish` to the updates of a session that has accepted `bytes`. */
    function Finished(updates: Result<seq<Transcript>, SttError>, bytes: seq<Byte>): Result<seq<Transcript>, SttError>
      requires Valid()
    {
      var before :- updates;
      var last :- FinishOutcome(bytes);
      Success(before + [last])
    }

    /** The transcripts of a whole recording, with no reference to chunks. */
    function Transcribed(bytes: seq<Byte>): Result<seq<Transcript>, SttError>
      requires Valid()
    {
      Finished(if Acceptable(bytes) then Success(Updates(bytes)) else Failure(Audio), bytes)
    }

    lemma NothingTranscribed()
      requires Valid()
      ensures Updates([]) == []
      ensures RunStream([]) == Failure(Audio) == Transcribed([])
    {
    }

    lemma {:induction false} PushAllError(chunks: seq<seq<Byte>>)
      requires Valid() && LegalChunks(chunks)
      ensures PushAll([], chunks).Failure? ==> PushAll([], chunks).error == Audio
    {
      if |chunks| > 0 {
        assert LegalChunks(chunks[..|chunks| - 1]);
        PushAllError(chunks[..|chunks| - 1]);
      }
    }

    /** Running a session over chunks is transcribing their concatenation. */
    lemma RunStreamIsTranscribed(chunks: seq<seq<Byte>>)
      requires Valid() && LegalChunks(chunks)
      ensures RunStream(chunks) == Transcribed(Flatten(chunks))
    {
      hide *;
      NothingTranscribed();
      FlattenNil<Byte>([]);
      if |chunks| == 0 {
        assert chunks == [];
      } else {
        PushAllAccepts(chunks);
        PushAllError(chunks);
        PushAllDelivers([], chunks);
        assert [] + Flatten(chunks) == Flatten(chunks);
        var pushed := PushAll([], chunks);
        assert pushed.Success? ==> [] + pushed.value == pushed.value;
        RunAndTranscribe(chunks);
      }
    }

    lemma RunAndTranscribe(chunks: seq<seq<Byte>>)
      requires Valid()
      ensures RunStream(chunks) == Finished(PushAll([], chunks), Flatten(chunks))
      ensures Transcribed(Flatten(chunks))
           == Finished(if Acceptable(Flatten(chunks)) then Success(Updates(Flatten(chunks))) else Failure(Audio),
                       Flatten(chunks))
    {
    }

    /** Chunk-split invariance: transport boundaries never change the transcripts or the error. */
    lemma ChunkSplitInvariance(a: seq<seq<Byte>>, b: seq<seq<Byte>>)
      requires Valid() && LegalChunks(a) && LegalChunks(b) && Flatten(a) == Flatten(b)
      ensures RunStream(a) == RunStream(b)
    {
      hide *;
      RunStreamIsTranscribed(a);
      RunStreamIsTranscribed(b);
    }
  }

  function Finals(updates: seq<Transcript>): seq<string> {
    if |updates| == 0 then []
    else
      var last := updates[|updates| - 1];
      Finals(updates[..|updates| - 1]) + (if last.kind == Final then [last.text] else [])
  }

  lemma {:induction false} FinalsAppend(a: seq<Transcript>, b: seq<Transcript>)
    ensures Finals(a + b) == Finals(a) + Finals(b)
  {
    if |b| == 0 {
      assert a + b == a;
    } else {
      assert (a + b)[..|a + b| - 1] == a + b[..|b| - 1];
      FinalsAppend(a, b[..|b| - 1]);
    }
  }

  lemma CountEndedSnoc(events: seq<VadEvent>, last: VadEvent)
    ensures CountEnded(events + [last]) == CountEnded(events) + (if last == Ended then 1 else 0)
  {
    assert (events + [last])[..|events|] == events;
  }

  function CountEnded(events: seq<VadEvent>): nat {
    if |events| == 0 then 0
    else CountEnded(events[..|events| - 1]) + (if events[|events| - 1] == Ended then 1 else 0)
  }
}
