/** The speech-recognition engine: bounded admission, batch transcription and streaming sessions. */
module Stt {
  import opened Prelude
  import opened Pcm
  import opened Resampler
  import opened Vad
  import opened Transcription

  const I32_MAX: nat := 0x7FFF_FFFF

  datatype Stop = Cancel | Deadline

  /** What a stopped request reports. */
  function StopError(stop: Stop): SttError {
    match stop
    case Cancel => Cancelled
    case Deadline => DeadlineExceeded
  }

  /**
   * Everything outside the engine that can interfere with a call: whether the request has been stopped when the
   * engine looks, and whether a native call fails. Each look or call is one tick of an arbitrary schedule.
   */
  class Environment {
    const stops: nat -> Option<Stop>
    const nativeFails: nat -> bool
    var ticks: nat

    constructor (stops: nat -> Option<Stop>, nativeFails: nat -> bool)
      ensures this.stops == stops && this.nativeFails == nativeFails
    {
      this.stops := stops;
      this.nativeFails := nativeFails;
      ticks := 0;
    }

    /** The request is never stopped and the native engine never fails. */
    ghost predicate Quiet() {
      forall n :: stops(n).None? && !nativeFails(n)
    }

    /** `ensure_active`. */
    method EnsureActive() returns (r: Result<(), SttError>)
      modifies this
      ensures Quiet() ==> r.Success?
      ensures r.Failure? ==> r.error in {Cancelled, DeadlineExceeded}
      ensures ticks == old(ticks) + 1
      ensures r.Success? <==> stops(old(ticks)).None?
      ensures stops(old(ticks)).Some? ==> r == Failure(StopError(stops(old(ticks)).value))
    {
      var stop := stops(ticks);
      ticks := ticks + 1;
      match stop {
        case None => return Success(());
        case Some(Cancel) => return Failure(Cancelled);
        case Some(Deadline) => return Failure(DeadlineExceeded);
      }
    }

    method NativeCall() returns (r: Result<(), SttError>)
      modifies this
      ensures Quiet() ==> r.Success?
      ensures r.Failure? ==> r.error == Engine
      ensures ticks == old(ticks) + 1
    {
      var fails := nativeFails(ticks);
      ticks := ticks + 1;
      r := if fails then Failure(Engine) else Success(());
    }
  }

  /**
   * One recognizer stream: it refuses empty audio, audio after the end, and a second end. What is done to it is on
   * record: the audio of the calls that were answered, how often it was finished, and whether it was ever used after
   * that.
   */
  class OnlineStream {
    const recognizer: Recognizer
    var accepted: seq<real>
    var finished: bool
    ghost var acknowledged: seq<real>
    ghost var finishes: nat
    ghost var misused: bool

    constructor (recognizer: Recognizer)
      ensures this.recognizer == recognizer && accepted == [] && !finished
      ensures acknowledged == [] && finishes == 0 && !misused
    {
      this.recognizer := recognizer;
      accepted := [];
      finished := false;
      acknowledged, finishes, misused := [], 0, false;
    }

    method Accept(samples: seq<real>, env: Environment) returns (r: Result<(), SttError>)
      modifies this`accepted, this`acknowledged, this`misused, env
      ensures misused == (old(misused) || finished)
      ensures acknowledged == if r.Success? then old(acknowledged) + samples else old(acknowledged)
      ensures r.Success? ==>
                && !finished && 0 < |samples| <= I32_MAX
                && recognizer.CanAccept(old(accepted), samples)
                && accepted == old(accepted) + samples
      ensures r.Failure? ==> r.error == Engine
      ensures env.Quiet() && !finished && 0 < |samples| <= I32_MAX && recognizer.CanAccept(old(accepted), samples) ==>
                r.Success?
    {
      misused := misused || finished;
      if finished || samples == [] || |samples| > I32_MAX {
        return Failure(Engine);
      }
      var steps := recognizer.acceptSteps(accepted, samples);
      accepted := accepted + samples;
      var _ :- env.NativeCall();
      if steps >= MAX_DECODE_STEPS {
        return Failure(Engine);
      }
      acknowledged := acknowledged + samples;
      r := Success(());
    }

    method Interim(env: Environment) returns (r: Result<string, SttError>)
      modifies env
      ensures r.Success? ==> r.value == recognizer.partialText(accepted)
      ensures r.Failure? ==> r.error == Engine
      ensures env.Quiet() ==> r.Success?
    {
      var _ :- env.NativeCall();
      r := Success(recognizer.partialText(accepted));
    }

    method Finish(env: Environment) returns (r: Result<string, SttError>)
      modifies this`finished, this`finishes, this`misused, env
      ensures finished && finishes == old(finishes) + 1 && misused == (old(misused) || old(finished))
      ensures r.Success? ==>
                && !old(finished)
                && recognizer.CanFinish(accepted)
                && r.value == recognizer.finalText(accepted)
      ensures r.Failure? ==> r.error == Engine
      ensures env.Quiet() && !old(finished) && recognizer.CanFinish(accepted) ==> r.Success?
    {
      misused := misused || finished;
      finishes := finishes + 1;
      if finished {
        return Failure(Engine);
      }
      finished := true;
      var _ :- env.NativeCall();
      if recognizer.finishSteps(accepted) >= MAX_DECODE_STEPS {
        return Failure(Engine);
      }
      r := Success(recognizer.finalText(accepted));
    }
  }

  /** The engine's count of native operations in progress. */
  class Limiter {
    const maximum: nat
    var active: nat

    ghost predicate Valid()
      reads this
    {
      active <= maximum
    }

    constructor (maximum: nat)
      ensures Valid() && this.maximum == maximum && active == 0
    {
      this.maximum := maximum;
      active := 0;
    }

    method Acquire() returns (r: Result<(), SttError>)
      requires Valid()
      modifies this
      ensures Valid()
      ensures old(active) < maximum ==> r == Success(()) && active == old(active) + 1
      ensures old(active) == maximum ==> r == Failure(Busy) && active == old(active)
    {
      if active < maximum {
        active := active + 1;
        return Success(());
      }
      r := Failure(Busy);
    }

    /** Dropping a permit; only a live permit can be dropped. */
    method Release()
      requires Valid() && active > 0
      modifies this
      ensures Valid() && active == old(active) - 1
    {
      active := active - 1;
    }
  }

  /** One incremental recognition session. */
  class StreamingSession {
    ghost const setup: Setup
    const recognizer: Recognizer
    const maxChunkBytes: nat
    const decoder: IncrementalPcm16
    const resampler: StreamingResampler
    const vad: EnergyVad
    const env: Environment
    const limiter: Limiter
    // The session's permit has not been dropped.
    var holding: bool
    var stream: OnlineStream
    var residual: seq<real>
    var lastInterim: string
    var lastFinal: Option<string>
    var currentHasAudio: bool
    var finished: bool
    // No call has failed half way: every accepted byte has been fully processed.
    ghost var intact: bool
    // The streams already finished and replaced, oldest first, and the audio of each.
    ghost var earlier: seq<OnlineStream>
    ghost var retired: seq<seq<real>>

    /** The bytes accepted so far. */
    ghost function History(): seq<Byte>
      reads decoder
    {
      decoder.history
    }

    ghost predicate Parts()
      reads `residual, decoder, resampler, vad
    {
      && setup.Valid()
      && recognizer == setup.recognizer
      && maxChunkBytes == setup.maxChunkBytes
      && decoder.Valid() && decoder.rate == setup.sourceRate && decoder.limits == setup.limits
      && resampler.Valid() && resampler.source == setup.sourceRate && resampler.target == ENGINE_SAMPLE_RATE
      && vad.Valid() && vad.tuning == setup.Detector()
      && |residual| < VAD_FRAME_SAMPLES
    }

    ghost function Progressed(): Progress
      reads `stream, `currentHasAudio, `lastInterim, `lastFinal, `retired, vad, stream
    {
      Progress(vad.heard, stream.accepted, currentHasAudio, lastInterim, lastFinal, retired)
    }

    /** The recognizer side of the session reflects exactly these frames, and its stream is still open. */
    ghost predicate Coupled(frames: seq<Frame>)
      reads `stream, `currentHasAudio, `lastInterim, `lastFinal, `retired, vad, stream
    {
      && setup.Detector().Frames(frames)
      && Progressed() == setup.ProgressAfter(frames)
      && !stream.finished
      && stream.recognizer == setup.recognizer
    }

    /**
     * Stream discipline: every earlier stream was finished exactly once and never used after that, the current one was
     * finished at most once and not used after that either, and it has acknowledged audio exactly if
     * `currentHasAudio` says so.
     */
    ghost predicate Disciplined()
      reads `stream, `currentHasAudio, `earlier, `retired, stream, earlier
    {
      && stream !in earlier
      && (forall i, j :: 0 <= i < j < |earlier| ==> earlier[i] != earlier[j])
      && |earlier| == |retired|
      && (forall i :: 0 <= i < |earlier| ==>
            earlier[i].finished && earlier[i].finishes == 1 && !earlier[i].misused && earlier[i].accepted == retired[i])
      && !stream.misused && stream.finishes == (if stream.finished then 1 else 0)
      && (currentHasAudio <==> stream.acknowledged != [])
    }

    /** The discipline is kept and the current stream is still open. */
    ghost predicate Ready()
      reads `stream, `currentHasAudio, `earlier, `retired, stream, earlier
    {
      Disciplined() && !stream.finished
    }

    /** The request is never stopped, the native engine never fails, and the recognizer keeps up. */
    ghost predicate Undisturbed() {
      env.Quiet() && recognizer.KeepsUp()
    }

    ghost predicate Valid()
      reads this, decoder, resampler, vad, stream, earlier
    {
      && Parts()
      && (intact ==> CoupledAt(History()) && Ready())
    }

    /** Every part of the session reflects exactly these bytes. */
    ghost predicate CoupledAt(bytes: seq<Byte>)
      requires setup.Valid() && resampler.Valid()
      reads `stream, `currentHasAudio, `lastInterim, `lastFinal, `retired, `residual, resampler, vad, stream
    {
      && resampler.CaughtUp()
      && resampler.input == Decode(bytes)
      && residual == ResidualOf(setup.Converted(bytes))
      && Coupled(FramesOf(setup.Converted(bytes)))
    }

    lemma Keeps()
      requires Valid() && intact
      ensures Disciplined()
    {
    }

    lemma Configured()
      requires Valid()
      ensures setup.Valid()
    {
    }

    lemma CoupledToDecoded(before: seq<Byte>, after: seq<Byte>)
      requires setup.Valid() && resampler.Valid() && CoupledAt(before)
      requires Decode(after) == Decode(before) && setup.Converted(after) == setup.Converted(before)
      ensures CoupledAt(after)
    {
      hide Setup.Converted, FramesOf, ResidualOf, Coupled, StreamingResampler.Valid, StreamingResampler.CaughtUp;
    }

    constructor (ghost setup: Setup, recognizer: Recognizer, maxChunkBytes: nat, decoder: IncrementalPcm16,
                 resampler: StreamingResampler, vad: EnergyVad, stream: OnlineStream, env: Environment, limiter: Limiter)
      requires setup.Valid() && recognizer == setup.recognizer && maxChunkBytes == setup.maxChunkBytes
      requires decoder.Valid() && decoder.rate == setup.sourceRate && decoder.limits == setup.limits
      requires resampler.Valid() && resampler.source == setup.sourceRate && resampler.target == ENGINE_SAMPLE_RATE
      requires vad.Valid() && vad.tuning == setup.Detector()
      requires decoder.history == [] && resampler.input == [] && vad.heard == []
      requires stream.recognizer == recognizer && !stream.finished && stream.accepted == []
      requires stream.acknowledged == [] && stream.finishes == 0 && !stream.misused
      ensures Valid() && intact && !finished && History() == []
      ensures this.setup == setup && this.env == env && this.decoder == decoder
      ensures this.stream == stream && this.resampler == resampler && this.vad == vad && earlier == []
      ensures this.limiter == limiter && holding
    {
      hide Setup.ProgressAfter, Setup.Detector, Setup.Valid, Setup.Converted, Decode, FramesOf, ResidualOf, EnergyVad.Valid,
           IncrementalPcm16.Valid, Tuning.Frames, SupportedRate;
      this.setup := setup;
      this.recognizer := recognizer;
      this.maxChunkBytes := maxChunkBytes;
      this.decoder := decoder;
      this.resampler := resampler;
      this.vad := vad;
      this.env := env;
      this.limiter := limiter;
      holding := true;
      this.stream := stream;
      residual := [];
      lastInterim := "";
      lastFinal := None;
      currentHasAudio := false;
      finished := false;
      intact := true;
      earlier, retired := [], [];
      new;
      setup.NothingHeard();
    }

    /** First half of the frame loop: the stream and the detector hear the frame. */
    method Hear(frame: Frame) returns (r: Result<VadEvent, SttError>)
      requires Parts() && 0 < |frame| <= VAD_FRAME_SAMPLES
      modifies this`currentHasAudio, stream`accepted, stream`acknowledged, stream`misused, vad, env
      ensures Parts()
      ensures old(Ready()) ==> Ready()
      ensures r.Success? ==>
                && stream.accepted == old(stream.accepted) + frame
                && currentHasAudio
                && vad.tuning.Frames(old(vad.heard) + [frame])
                && r.value == vad.tuning.EventOf(old(vad.heard) + [frame])
                && vad.heard == (if r.value == Ended then [] else old(vad.heard) + [frame])
      ensures r.Failure? ==> r.error in {Cancelled, DeadlineExceeded, Engine}
      ensures Undisturbed() && !stream.finished && stream.recognizer == recognizer ==> r.Success?
    {
      hide EnergyVad.Valid, Setup.Valid, Tuning.EventOf, IncrementalPcm16.Valid, StreamingResampler.Valid,
           Environment.Quiet, Recognizer.CanAccept, Recognizer.CanFinish;
      var _ :- env.EnsureActive();
      var _ :- stream.Accept(frame, env);
      currentHasAudio := true;
      var transition := vad.Process(frame);
      r := Success(transition.value);
    }

    lemma ReadyIsDisciplined()
      ensures Ready() ==> Disciplined() && !stream.finished
    {
    }

    /** Finishes the current stream. */
    method FinishStream() returns (r: Result<string, SttError>)
      modifies stream`finished, stream`finishes, stream`misused, env
      ensures stream.finished
      ensures old(Ready()) ==> Disciplined()
      ensures r.Success? ==> !old(stream.finished) && r.value == stream.recognizer.finalText(stream.accepted)
      ensures r.Failure? ==> r.error == Engine
      ensures Undisturbed() && !old(stream.finished) && stream.recognizer == recognizer ==> r.Success?
    {
      hide Environment.Quiet, Recognizer.CanAccept, Recognizer.CanFinish;
      r := stream.Finish(env);
    }

    /** Opens the next stream in place of one that has been finished. */
    method OpenStream()
      modifies this`stream, this`currentHasAudio, this`lastInterim, this`retired, this`earlier
      ensures fresh(stream) && stream.recognizer == recognizer && stream.accepted == [] && !stream.finished
      ensures !currentHasAudio && lastInterim == "" && retired == old(retired) + [old(stream.accepted)]
      ensures old(Disciplined()) && old(stream.finished) ==> Ready()
    {
      earlier, retired := earlier + [stream], retired + [stream.accepted];
      stream := new OnlineStream(recognizer);
      currentHasAudio := false;
      lastInterim := "";
    }

    /** Second half, at the end of an utterance: finish its stream and open the next. */
    method EndUtterance() returns (r: Result<seq<Transcript>, SttError>)
      modifies this`stream, this`currentHasAudio, this`lastInterim, this`lastFinal, this`retired, this`earlier,
               stream`finished, stream`finishes, stream`misused, env
      ensures stream == old(stream) || fresh(stream)
      ensures old(Ready()) ==> Disciplined() && (r.Success? ==> Ready())
      ensures r.Success? ==>
                var text := old(stream).recognizer.finalText(old(stream.accepted));
                && !old(stream.finished) && old(stream).finished
                && !stream.finished && stream.recognizer == recognizer
                && Progressed() == Progress(vad.heard, [], false, "", Some(text), old(retired) + [old(stream.accepted)])
                && r.value == [Transcript(Final, text)]
      ensures r.Failure? ==> r.error in {Cancelled, DeadlineExceeded, Engine}
      ensures Undisturbed() && !old(stream.finished) && old(stream.recognizer) == recognizer ==> r.Success?
    {
      hide Environment.Quiet, Recognizer.KeepsUp, Disciplined, Ready;
      var text :- FinishStream();
      var _ :- env.EnsureActive();
      lastFinal := Some(text);
      var _ :- env.NativeCall();
      OpenStream();
      ReadyIsDisciplined();
      r := Success([Transcript(Final, text)]);
    }

    /** Second half, within an utterance: report the hypothesis if it is new. */
    method ReportInterim() returns (r: Result<seq<Transcript>, SttError>)
      modifies this`lastInterim, env
      ensures r.Success? ==>
                var text := stream.recognizer.partialText(stream.accepted);
                var isNew := text != "" && text != old(lastInterim);
                && lastInterim == (if isNew then text else old(lastInterim))
                && r.value == (if isNew then [Transcript(Interim, text)] else [])
      ensures r.Failure? ==> r.error in {Cancelled, DeadlineExceeded, Engine}
      ensures env.Quiet() ==> r.Success?
    {
      hide Environment.Quiet;
      var text :- stream.Interim(env);
      if text != "" && text != lastInterim {
        lastInterim := text;
        r := Success([Transcript(Interim, text)]);
      } else {
        r := Success([]);
      }
    }

    /** The body of the frame loop. */
    method ProcessFrame(frame: Frame, ghost frames: seq<Frame>) returns (r: Result<seq<Transcript>, SttError>)
      requires Parts() && |frame| == VAD_FRAME_SAMPLES
      modifies this`stream, this`currentHasAudio, this`lastInterim, this`lastFinal, this`retired, this`earlier, stream,
               vad, env
      ensures Parts()
      ensures stream == old(stream) || fresh(stream)
      ensures old(Ready()) ==> Disciplined() && (r.Success? ==> Ready())
      ensures old(Coupled(frames)) && r.Success? ==>
                && Coupled(frames + [frame])
                && setup.FrameUpdates(frames + [frame]) == setup.FrameUpdates(frames) + r.value
      ensures r.Failure? ==> r.error in {Cancelled, DeadlineExceeded, Engine}
      ensures old(Coupled(frames)) && Undisturbed() ==> r.Success?
    {
      hide Setup.ProgressAfter, Setup.FrameUpdates, Setup.Valid, Tuning.EventOf, Tuning.Frames,
           IncrementalPcm16.Valid, StreamingResampler.Valid, EnergyVad.Valid, Environment.Quiet;
      if Coupled(frames) {
        setup.ProgressStep(frames, frame);
      }
      var transition :- Hear(frame);
      if transition == Ended {
        r := EndUtterance();
      } else {
        r := ReportInterim();
      }
    }

    /** The frame loop: `for frame in frames.chunks_exact(VAD_FRAME_SAMPLES)`. */
    method ProcessFrames(samples: seq<real>, ghost frames: seq<Frame>) returns (r: Result<seq<Transcript>, SttError>)
      requires Parts() && |samples| % VAD_FRAME_SAMPLES == 0
      modifies this`stream, this`currentHasAudio, this`lastInterim, this`lastFinal, this`retired, this`earlier, stream,
               vad, env
      ensures Parts()
      ensures stream == old(stream) || fresh(stream)
      ensures old(Ready()) ==> Disciplined() && (r.Success? ==> Ready())
      ensures old(Coupled(frames)) && r.Success? ==>
                && Coupled(frames + FramesOf(samples))
                && setup.FrameUpdates(frames + FramesOf(samples)) == setup.FrameUpdates(frames) + r.value
      ensures r.Failure? ==> r.error in {Cancelled, DeadlineExceeded, Engine}
      ensures old(Coupled(frames)) && Undisturbed() ==> r.Success?
    {
      hide Setup.ProgressAfter, Setup.FrameUpdates, Setup.Valid, Tuning.Frames, Setup.Detector,
           IncrementalPcm16.Valid, StreamingResampler.Valid, EnergyVad.Valid, Environment.Quiet;
      ghost var all := FramesOf(samples);
      ghost var coupled := Coupled(frames);
      var updates: seq<Transcript> := [];
      assert frames + all[..0] == frames;
      for i := 0 to |samples| / VAD_FRAME_SAMPLES
        invariant Parts()
        invariant stream == old(stream) || fresh(stream)
        invariant old(Ready()) ==> Ready()
        invariant coupled ==> Coupled(frames + all[..i])
        invariant coupled ==> setup.FrameUpdates(frames + all[..i]) == setup.FrameUpdates(frames) + updates
      {
        var frame := samples[i * VAD_FRAME_SAMPLES..(i + 1) * VAD_FRAME_SAMPLES];
        assert frames + all[..i] + [frame] == frames + all[..i + 1];
        var more :- ProcessFrame(frame, frames + all[..i]);
        updates := updates + more;
      }
      assert frames + all[..|all|] == frames + all;
      r := Success(updates);
    }

    /** Resampling and framing of newly decoded samples: returns the complete frames and keeps the rest. */
    method Convert(decoded: seq<real>, ghost before: seq<Byte>, ghost after: seq<Byte>)
      returns (r: Result<seq<real>, SttError>)
      requires Parts() && |decoded| > 0 && AllInRange(decoded)
      requires before <= after && Decode(after) == Decode(before) + decoded
      modifies this`residual, resampler
      ensures Parts()
      ensures r.Failure? ==> r.error == Audio
      ensures r.Success? ==> |r.value| % VAD_FRAME_SAMPLES == 0
      ensures old(CoupledAt(before)) ==>
                && (r.Success? <==> !TooLarge(|Decode(after)|, ENGINE_SAMPLE_RATE))
                && (r.Success? ==>
                      && resampler.CaughtUp()
                      && resampler.input == Decode(after)
                      && residual == ResidualOf(setup.Converted(after))
                      && FramesOf(setup.Converted(after)) == FramesOf(setup.Converted(before)) + FramesOf(r.value))
    {
      hide Setup.Detector, FramesOf, Resampled, ResampledLength, Decode, EnergyVad.Valid, TooLarge, Coupled,
           IncrementalPcm16.Valid;
      assert after == before + after[|before|..];
      setup.PushContinues(before, after[|before|..]);
      var converted := resampler.Push(decoded);
      if converted.Failure? {
        return Failure(Audio);
      }
      var buffer := residual + converted.value;
      FramesOfComplete(buffer);
      var complete := |buffer| / VAD_FRAME_SAMPLES * VAD_FRAME_SAMPLES;
      residual := buffer[complete..];
      r := Success(buffer[..complete]);
    }

    /** The rest of `push_pcm16` once samples have been decoded. */
    method Advance(decoded: seq<real>, ghost before: seq<Byte>, ghost after: seq<Byte>)
      returns (r: Result<seq<Transcript>, SttError>)
      requires Parts() && |decoded| > 0 && AllInRange(decoded)
      requires before <= after && Decode(after) == Decode(before) + decoded
      modifies this`stream, this`currentHasAudio, this`lastInterim, this`lastFinal, this`retired, this`earlier,
               this`residual, stream, resampler, vad, env
      ensures Parts()
      ensures stream == old(stream) || fresh(stream)
      ensures old(Ready()) ==> Disciplined() && (r.Success? ==> Ready())
      ensures r.Failure? ==> r.error != InvalidInput
      ensures r.Success? ==> env.ticks > 0 && env.stops(env.ticks - 1).None?
      ensures old(CoupledAt(before)) && r.Success? ==>
                && CoupledAt(after)
                && !TooLarge(|Decode(after)|, ENGINE_SAMPLE_RATE)
                && setup.FrameUpdates(FramesOf(setup.Converted(after)))
                   == setup.FrameUpdates(FramesOf(setup.Converted(before))) + r.value
      ensures old(CoupledAt(before)) && Undisturbed() && r.Failure? ==>
                r.error == Audio && TooLarge(|Decode(after)|, ENGINE_SAMPLE_RATE)
    {
      hide Setup.ProgressAfter, Setup.FrameUpdates, Setup.Converted, Setup.Detector, FramesOf, ResidualOf, Resampled,
           ResampledLength, Decode, EnergyVad.Valid, IncrementalPcm16.Valid, TooLarge, Environment.Quiet;
      var frames :- Convert(decoded, before, after);
      var updates :- ProcessFrames(frames, FramesOf(setup.Converted(before)));
      var _ :- env.EnsureActive();
      r := Success(updates);
    }

    /**
     * Accepts one PCM16 byte frame. Whatever interferes, an answer is the one the bytes call for, and stream discipline
     * is kept, also by the call that fails; undisturbed, every refusal is the one called for too, and a refused frame
     * leaves the session as it was. A request stopped before the call, or by the time it would answer, gets no answer.
     */
    method PushPcm16(bytes: seq<Byte>) returns (r: Result<seq<Transcript>, SttError>)
      requires Valid()
      modifies this`stream, this`currentHasAudio, this`lastInterim, this`lastFinal, this`retired, this`earlier,
               this`residual, this`intact, stream, decoder, resampler, vad, env
      ensures Valid()
      ensures old(intact) ==> Disciplined()
      ensures stream == old(stream) || fresh(stream)
      ensures finished ==> r == Failure(InvalidInput)
      ensures old(intact) && r.Success? ==>
                intact && History() == old(History()) + bytes && r == setup.PushOutcome(old(History()), bytes)
      ensures old(intact) && !finished && Undisturbed() ==> r == setup.PushOutcome(old(History()), bytes)
      ensures r.Failure? && intact ==> old(intact) && History() == old(History())
      ensures old(intact) && r.Failure? && r.error == InvalidInput ==> intact
      ensures old(intact)
              && setup.limits.Admit(|old(History()) + bytes|, setup.sourceRate, |old(History()) + bytes| / 2).Failure?
              ==> intact
      ensures !finished && 0 < |bytes| <= maxChunkBytes && env.stops(old(env.ticks)).Some? ==>
                && r == Failure(StopError(env.stops(old(env.ticks)).value))
                && History() == old(History()) && (old(intact) ==> intact)
      ensures r.Success? ==> env.ticks > 0 && env.stops(env.ticks - 1).None?
    {
      hide Setup.Converted, Setup.Detector, Setup.PushOutcome, Setup.Valid, FramesOf, CoupledAt, Decode, EnergyVad.Valid,
           StreamingResampler.Valid, AudioLimits.Admit, TooLarge, Environment.Quiet, AllInRange, IncrementalPcm16.Valid,
           Disciplined, Ready, Recognizer.KeepsUp;
      ReadyIsDisciplined();
      setup.PushRefused(History(), bytes);
      if finished || bytes == [] || |bytes| > maxChunkBytes {
        return Failure(InvalidInput);
      }
      var _ :- env.EnsureActive();
      ghost var before := History();
      var decoded := decoder.Push(bytes);
      if decoded.Failure? {
        return Failure(Audio);
      }
      if decoded.value == [] {
        setup.PushOfNoSample(before, bytes);
        if intact {
          CoupledToDecoded(before, before + bytes);
        }
        return Success([]);
      }
      r := TakeDecoded(decoded.value, before, bytes);
    }

    /** The part of `push_pcm16` after bytes have completed samples. */
    method TakeDecoded(decoded: seq<real>, ghost before: seq<Byte>, ghost bytes: seq<Byte>)
      returns (r: Result<seq<Transcript>, SttError>)
      requires Parts() && (intact ==> CoupledAt(before) && Ready())
      requires History() == before + bytes && Decode(before + bytes) == Decode(before) + decoded && AllInRange(decoded)
      requires setup.Admitted(before, bytes) && |decoded| > 0
      modifies this`stream, this`currentHasAudio, this`lastInterim, this`lastFinal, this`retired, this`earlier,
               this`residual, this`intact, stream, resampler, vad, env
      ensures Valid()
      ensures stream == old(stream) || fresh(stream)
      ensures old(intact) ==> Disciplined()
      ensures old(intact) && r.Success? ==> intact && r == setup.PushOutcome(before, bytes)
      ensures old(intact) && Undisturbed() ==> r == setup.PushOutcome(before, bytes)
      ensures r.Failure? ==> !intact && r.error != InvalidInput
      ensures r.Success? ==> env.ticks > 0 && env.stops(env.ticks - 1).None?
    {
      hide Setup.Converted, Setup.Detector, Setup.PushOutcome, Setup.Valid, FramesOf, CoupledAt, Decode, EnergyVad.Valid,
           StreamingResampler.Valid, AudioLimits.Admit, TooLarge, Environment.Quiet, AllInRange, IncrementalPcm16.Valid,
           Disciplined, Ready, Recognizer.KeepsUp, Setup.Admitted, Parts, Valid;
      PartsAreUsable();
      ghost var wasIntact := intact;
      intact := false;
      setup.PushOfSamples(before, bytes);
      r := Advance(decoded, before, before + bytes);
      if wasIntact && r.Success? {
        setup.PushAnswers(before, bytes, r.value);
        intact := true;
      }
      PartsAreUsable();
      IsValid();
    }

    lemma PartsAreUsable()
      requires Parts()
      ensures setup.Valid() && resampler.Valid()
    {
    }

    lemma IsValid()
      requires Parts()
      requires intact ==> setup.Valid() && resampler.Valid() && CoupledAt(History()) && Ready()
      ensures Valid()
    {
    }

    /** First part of `finish`: the recognizer hears what is left after the last complete frame. */
    method FlushResidual() returns (r: Result<(), SttError>)
      requires Parts()
      modifies this`residual, this`currentHasAudio, stream`accepted, stream`acknowledged, stream`misused, vad, env
      ensures Parts()
      ensures old(Ready()) ==> Ready() && Disciplined()
      ensures r.Success? ==>
                && stream.accepted == old(stream.accepted) + old(residual)
                && currentHasAudio == (old(currentHasAudio) || old(residual) != [])
      ensures r.Failure? ==> r.error == Engine
      ensures Undisturbed() && !stream.finished && stream.recognizer == recognizer ==> r.Success?
    {
      hide EnergyVad.Valid, Setup.Valid, Tuning.EventOf, IncrementalPcm16.Valid, StreamingResampler.Valid,
           Environment.Quiet, Recognizer.CanAccept, Recognizer.CanFinish;
      if residual != [] {
        var _ :- stream.Accept(residual, env);
        currentHasAudio := true;
        var _ := vad.Process(residual);
        residual := [];
      }
      r := Success(());
    }

    /** Second part of `finish`: the text of the open utterance, or of the last one closed. */
    method TakeFinalText() returns (r: Result<string, SttError>)
      modifies this`lastFinal, stream`finished, stream`finishes, stream`misused, env
      ensures old(Ready()) ==> Disciplined() && stream.finished == currentHasAudio
      ensures r.Success? ==>
                if currentHasAudio then r.value == stream.recognizer.finalText(stream.accepted)
                else old(lastFinal) == Some(r.value)
      ensures !currentHasAudio && old(lastFinal).None? ==> r == Failure(Audio)
      ensures Undisturbed() && !old(stream.finished) && stream.recognizer == recognizer ==>
                (currentHasAudio || old(lastFinal).Some? ==> r.Success?)
    {
      hide Environment.Quiet, Recognizer.KeepsUp;
      if currentHasAudio {
        r := FinishStream();
      } else {
        r := if lastFinal.Some? then Success(lastFinal.value) else Failure(Audio);
        lastFinal := None;
      }
    }

    /** Dropping the session without finishing it gives its permit back. */
    method Drop()
      requires Valid() && holding && limiter.Valid() && limiter.active > 0
      modifies `holding, limiter
      ensures Valid() && !holding
      ensures limiter.Valid() && limiter.active == old(limiter.active) - 1
    {
      hide Parts, CoupledAt, Ready;
      holding := false;
      limiter.Release();
    }

    /**
     * Ends the session. The text answered is the one its bytes call for; whatever happens, no stream is used after it
     * was finished, on success the current one has been finished exactly if it had audio, and the permit is given back.
     * A request stopped before the call, or by the time it would answer, gets no text.
     */
    method Finish() returns (r: Result<Transcript, SttError>)
      requires Valid() && holding && limiter.Valid() && limiter.active > 0
      modifies this, stream, vad, env, limiter
      ensures Valid() && !intact
      ensures !holding && limiter.Valid() && limiter.active == old(limiter.active) - 1
      ensures old(intact) ==> Disciplined() && (r.Success? ==> (stream.finished <==> currentHasAudio))
      ensures old(finished) ==> r == Failure(InvalidInput)
      ensures r.Success? ==> finished
      ensures old(intact) && r.Success? ==> r == setup.FinishOutcome(History())
      ensures old(intact) && !old(finished) && Undisturbed() ==> r == setup.FinishOutcome(History())
      ensures !old(finished) && env.stops(old(env.ticks)).Some? ==>
                r == Failure(StopError(env.stops(old(env.ticks)).value))
      ensures r.Success? ==> env.ticks > 0 && env.stops(env.ticks - 1).None?
    {
      hide Parts, Disciplined, Setup.FinishOutcome, CoupledAt, Ready;
      r := FinishHeld();
      Drop();
    }

    /** The part of `finish` before the session is dropped. */
    method FinishHeld() returns (r: Result<Transcript, SttError>)
      requires Valid()
      modifies this`intact, this`residual, this`currentHasAudio, this`lastFinal, this`finished, stream, vad, env
      ensures Valid() && !intact
      ensures old(intact) ==> Disciplined() && (r.Success? ==> (stream.finished <==> currentHasAudio))
      ensures old(finished) ==> r == Failure(InvalidInput)
      ensures r.Success? ==> finished
      ensures old(intact) && r.Success? ==> r == setup.FinishOutcome(History())
      ensures old(intact) && !old(finished) && Undisturbed() ==> r == setup.FinishOutcome(History())
      ensures !old(finished) && env.stops(old(env.ticks)).Some? ==>
                r == Failure(StopError(env.stops(old(env.ticks)).value))
      ensures r.Success? ==> env.ticks > 0 && env.stops(env.ticks - 1).None?
    {
      hide Setup.Converted, Setup.Detector, Setup.Valid, FramesOf, ResidualOf, Decode, EnergyVad.Valid,
           Setup.FinishOutcome, StreamingResampler.Valid, AudioLimits.Admit, Environment.Quiet, Setup.ProgressAfter,
           Disciplined, Ready, Recognizer.KeepsUp;
      ReadyIsDisciplined();
      ghost var wasIntact := intact;
      intact := false;
      if finished {
        return Failure(InvalidInput);
      }
      setup.FinishRefused(History());
      var _ :- env.EnsureActive();
      var decoded := decoder.Finish();
      if decoded.Failure? {
        return Failure(Audio);
      }
      r := Conclude(wasIntact);
    }

    /** The part of `finish` after the decoder has found the bytes to be whole samples. */
    method Conclude(ghost wasIntact: bool) returns (r: Result<Transcript, SttError>)
      requires Parts() && !intact && (wasIntact ==> CoupledAt(History()) && Ready())
      requires History() != [] && |History()| % 2 == 0
      modifies this`residual, this`currentHasAudio, this`lastFinal, this`finished, stream`accepted, stream`acknowledged,
               stream`finished, stream`finishes, stream`misused, vad, env
      ensures Parts() && (r.Success? ==> finished)
      ensures wasIntact ==> Disciplined() && (r.Success? ==> (stream.finished <==> currentHasAudio))
      ensures wasIntact && r.Success? ==> r == setup.FinishOutcome(History())
      ensures wasIntact && Undisturbed() ==> r == setup.FinishOutcome(History())
      ensures r.Success? ==> env.ticks > 0 && env.stops(env.ticks - 1).None?
    {
      hide Setup.Converted, Setup.Detector, Setup.Valid, FramesOf, ResidualOf, Decode, EnergyVad.Valid,
           Setup.FinishOutcome, StreamingResampler.Valid, AudioLimits.Admit, Environment.Quiet, Setup.ProgressAfter,
           Disciplined, Ready, Recognizer.KeepsUp, IncrementalPcm16.Valid;
      setup.FinishCases(History());
      var _ :- FlushResidual();
      finished := true;
      var text :- TakeFinalText();
      var _ :- env.EnsureActive();
      r := Success(Transcript(Final, text));
    }
  }
}
