/** The engine's public operations, and a client that runs one session to its end. */
module SttEngineApi {
  import opened Prelude
  import opened Pcm
  import opened Resampler
  import opened Vad
  import opened Transcription
  import opened Stt

  datatype SttLimits = SttLimits(maxConcurrent: nat, maxChunkBytes: nat, audio: AudioLimits)

  /** The recognizer takes this audio in one call and finishes it, within the native length and work limits. */
  predicate OneCall(recognizer: Recognizer, samples: seq<real>) {
    && |samples| <= I32_MAX
    && recognizer.CanAccept([], samples)
    && recognizer.CanFinish(samples)
  }

  /** The native interface counts samples in a signed 32-bit number. */
  lemma NativeLength(recognizer: Recognizer, samples: seq<real>)
    ensures |samples| > 2_147_483_647 ==> !OneCall(recognizer, samples)
    ensures |samples| <= 2_147_483_647 && recognizer.CanAccept([], samples) && recognizer.CanFinish(samples) ==>
              OneCall(recognizer, samples)
  {
  }

  /** What `transcribe` answers on a live request with a free permit and native calls that do not fail otherwise. */
  function BatchOutcome(recognizer: Recognizer, limits: AudioLimits, audio: MonoPcm): Result<string, SttError>
    requires audio.Valid()
  {
    if limits.ValidatePcm(audio).Failure? then Failure(Audio)
    else
      match ResampleOutcome(audio, ENGINE_SAMPLE_RATE)
      case Failure(_) => Failure(Audio)
      case Success(converted) =>
        if OneCall(recognizer, converted.samples) then Success(recognizer.finalText(converted.samples))
        else Failure(Engine)
  }

  /** A batch call refuses what is beyond the limits, and what the resampler cannot take. */
  lemma BatchRefuses(recognizer: Recognizer, limits: AudioLimits, audio: MonoPcm)
    requires audio.Valid()
    ensures BatchOutcome(recognizer, limits, audio) == Failure(Audio) <==>
              || limits.ValidatePcm(audio).Failure?
              || (audio.rate != 16000 && TooLarge(|audio.samples|, 16000))
    ensures limits.ValidatePcm(audio).Success? ==>
              2 * |audio.samples| <= limits.maxEncodedBytes
              && 1000 * |audio.samples| <= audio.rate * limits.maxDurationMs
  {
    hide TooLarge, Resampled, OneCall;
  }

  /**
   * Batch and realtime agree: when the detector closes no utterance, `finish` gives the text `transcribe` gives for
   * the same bytes. They differ only where the whole recording is too much for one native call, in samples or in
   * decoder steps; then the batch call fails.
   */
  lemma BatchAgreesWithStream(setup: Setup, bytes: seq<Byte>)
    requires setup.Valid() && setup.Acceptable(bytes)
    requires |bytes| % 2 == 0 && bytes != []
    requires |setup.Utterances(FramesOf(setup.Converted(bytes)))| == 0
    ensures FromPcm16(bytes, setup.sourceRate, setup.limits) == Success(MonoPcm(setup.sourceRate, Decode(bytes)))
    ensures MonoPcm(setup.sourceRate, Decode(bytes)).Valid()
    ensures setup.FinishOutcome(bytes).Success?
    ensures BatchOutcome(setup.recognizer, setup.limits, MonoPcm(setup.sourceRate, Decode(bytes))) ==
              if OneCall(setup.recognizer, setup.Converted(bytes))
              then Success(setup.FinishOutcome(bytes).Extract().text)
              else Failure(Engine)
  {
    hide Resampled, FramesOf, ResidualOf, TooLarge, Setup.Utterances, Setup.FinishOutcome, OneCall;
    setup.FinishMatchesBatch(bytes);
    assert |Decode(bytes)| * 2 == |bytes|;
    SupportedRateRange(setup.sourceRate);
  }

  class SttEngine {
    const recognizer: Recognizer
    const limits: SttLimits
    const vad: VadConfig
    const limiter: Limiter

    ghost predicate Valid()
      reads limiter
    {
      && limits.maxConcurrent > 0
      && limits.maxChunkBytes > 0
      && limits.audio.Valid()
      && Tuning(vad, ENGINE_SAMPLE_RATE).Valid()
      && limiter.Valid()
      && limiter.maximum == limits.maxConcurrent
    }

    ghost function SetupFor(rate: nat): Setup {
      Setup(recognizer, vad, limits.audio, limits.maxChunkBytes, rate)
    }

    constructor (recognizer: Recognizer, limits: SttLimits, vad: VadConfig, limiter: Limiter)
      ensures this.recognizer == recognizer && this.limits == limits && this.vad == vad && this.limiter == limiter
    {
      this.recognizer := recognizer;
      this.limits := limits;
      this.vad := vad;
      this.limiter := limiter;
    }

    /** `with_backend`: an engine is built exactly when its limits and its detector configuration are valid. */
    static method WithBackend(recognizer: Recognizer, limits: SttLimits, vad: VadConfig)
      returns (r: Result<SttEngine, SttError>)
      requires limits.audio.Valid()
      ensures r.Success? <==>
                limits.maxConcurrent > 0 && limits.maxChunkBytes > 0 && Tuning(vad, ENGINE_SAMPLE_RATE).Valid()
      ensures r.Success? ==> fresh(r.value) && fresh(r.value.limiter) && r.value.Valid() && r.value.limiter.active == 0
      ensures r.Success? ==> r.value.recognizer == recognizer && r.value.limits == limits && r.value.vad == vad
      ensures r.Failure? ==> r.error == InvalidInput
    {
      if limits.maxConcurrent == 0 || limits.maxChunkBytes == 0 {
        return Failure(InvalidInput);
      }
      if !Tuning(vad, ENGINE_SAMPLE_RATE).Valid() {
        return Failure(InvalidInput);
      }
      var limiter := new Limiter(limits.maxConcurrent);
      var engine := new SttEngine(recognizer, limits, vad, limiter);
      r := Success(engine);
    }

    /** Transcribes a recording; the permit is returned on every path, also when the call fails. */
    method Transcribe(audio: MonoPcm, env: Environment) returns (r: Result<string, SttError>)
      requires Valid() && audio.Valid()
      modifies limiter, env
      ensures Valid() && limiter.active == old(limiter.active)
      ensures r.Success? ==> r == BatchOutcome(recognizer, limits.audio, audio)
      ensures env.stops(old(env.ticks)).Some? ==> r == Failure(StopError(env.stops(old(env.ticks)).value))
      ensures r.Success? ==> env.ticks > 0 && env.stops(env.ticks - 1).None?
      ensures env.Quiet() ==>
                r == if old(limiter.active) == limiter.maximum then Failure(Busy)
                     else BatchOutcome(recognizer, limits.audio, audio)
    {
      hide Environment.Quiet, BatchOutcome;
      var _ :- env.EnsureActive();
      var _ :- limiter.Acquire();
      r := TranscribeAdmitted(audio, env);
      limiter.Release();
    }

    /** The part of `transcribe` that runs under the permit. */
    method TranscribeAdmitted(audio: MonoPcm, env: Environment) returns (r: Result<string, SttError>)
      requires Valid() && audio.Valid()
      modifies env
      ensures r.Success? ==> r == BatchOutcome(recognizer, limits.audio, audio)
      ensures r.Success? ==> env.ticks > 0 && env.stops(env.ticks - 1).None?
      ensures env.Quiet() ==> r == BatchOutcome(recognizer, limits.audio, audio)
    {
      hide Environment.Quiet, Resampled, AudioLimits.Admit, TooLarge, Available, OneCall;
      if limits.audio.ValidatePcm(audio).Failure? {
        return Failure(Audio);
      }
      var converted := Resample(audio, ENGINE_SAMPLE_RATE);
      if converted.Failure? {
        return Failure(Audio);
      }
      r := Recognize(converted.value.samples, env);
    }

    /** One stream hears the whole recording in one call. */
    method Recognize(samples: seq<real>, env: Environment) returns (r: Result<string, SttError>)
      requires |samples| > 0
      modifies env
      ensures r.Success? ==> OneCall(recognizer, samples) && r.value == recognizer.finalText(samples)
      ensures r.Success? ==> env.ticks > 0 && env.stops(env.ticks - 1).None?
      ensures env.Quiet() ==>
                r == if OneCall(recognizer, samples) then Success(recognizer.finalText(samples)) else Failure(Engine)
    {
      hide Environment.Quiet, Recognizer.CanAccept, Recognizer.CanFinish;
      var _ :- env.NativeCall();
      var stream := new OnlineStream(recognizer);
      assert [] + samples == samples;
      var _ :- stream.Accept(samples, env);
      var _ :- env.EnsureActive();
      var text :- stream.Finish(env);
      var _ :- env.EnsureActive();
      r := Success(text);
    }

    /** Opens a session, which then holds one permit; a failed call holds none. */
    method StartStream(rate: nat, env: Environment) returns (r: Result<StreamingSession, SttError>)
      requires Valid()
      modifies limiter, env
      ensures Valid()
      ensures limiter.active == old(limiter.active) + (if r.Success? then 1 else 0)
      ensures r.Success? ==>
                && old(limiter.active) < limiter.maximum
                && SupportedRate(rate)
                && r.value.setup == SetupFor(rate)
                && r.value.Valid() && r.value.intact && !r.value.finished
                && r.value.History() == [] && r.value.env == env
                && r.value.limiter == limiter && r.value.holding
                && fresh(r.value) && fresh(r.value.decoder) && fresh(r.value.resampler) && fresh(r.value.vad)
                && fresh(r.value.stream)
      ensures env.Quiet() && old(limiter.active) == limiter.maximum ==> r == Failure(Busy)
      ensures env.Quiet() && old(limiter.active) < limiter.maximum ==>
                if SupportedRate(rate) then r.Success? else r == Failure(Audio)
    {
      hide Environment.Quiet;
      var _ :- env.EnsureActive();
      var _ :- limiter.Acquire();
      var native := env.NativeCall();
      if native.Failure? {
        limiter.Release();
        return Failure(native.error);
      }
      var stream := new OnlineStream(recognizer);
      if !SupportedRate(rate) {
        limiter.Release();
        return Failure(Audio);
      }
      var decoder := new IncrementalPcm16(rate, limits.audio);
      var resampler := new StreamingResampler(rate, ENGINE_SAMPLE_RATE);
      var vad := new EnergyVad(Tuning(this.vad, ENGINE_SAMPLE_RATE));
      var session := new StreamingSession(SetupFor(rate), recognizer, limits.maxChunkBytes, decoder, resampler, vad,
                                          stream, env, limiter);
      r := Success(session);
    }
  }

  /**
   * A client of a fresh session: pushes every chunk until one is refused, and otherwise finishes. An answer is the one the
   * chunks call for; undisturbed, so is an error; and whatever disturbs it, the whole run up to and including the first
   * error keeps stream discipline. At the end the session is dropped, and its permit is back on every path.
   */
  method RunToEnd(session: StreamingSession, chunks: seq<seq<Byte>>) returns (r: Result<seq<Transcript>, SttError>)
    requires session.Valid() && session.intact && !session.finished && session.History() == []
    requires session.holding && session.limiter.Valid() && session.limiter.active > 0
    modifies session, session.stream, session.decoder, session.resampler, session.vad, session.env, session.limiter
    ensures session.Disciplined()
    ensures !session.holding && session.limiter.active == old(session.limiter.active) - 1
    ensures r.Success? ==> r == session.setup.RunStream(chunks)
    ensures session.Undisturbed() ==> r == session.setup.RunStream(chunks)
  {
    hide StreamingSession.Valid, StreamingSession.Parts, Setup.Valid, Setup.PushAll, Setup.PushOutcome, Setup.FinishOutcome,
         Environment.Quiet, StreamingSession.Disciplined, StreamingSession.Undisturbed;
    session.Configured();
    session.Keeps();
    var updates: seq<Transcript> := [];
    ghost var setup := session.setup;
    setup.NoPushes([], chunks[..0]);
    for i := 0 to |chunks|
      invariant session.Valid() && session.intact && !session.finished && session.Disciplined()
      invariant session.History() == Flatten(chunks[..i])
      invariant session.stream == old(session.stream) || fresh(session.stream)
      invariant session.holding && session.limiter.Valid() && session.limiter.active == old(session.limiter.active)
      invariant setup.PushAll([], chunks[..i]) == Success(updates)
    {
      assert chunks[..i + 1][..i] == chunks[..i];
      setup.LastPush([], chunks[..i + 1]);
      assert [] + Flatten(chunks[..i]) == Flatten(chunks[..i]);
      assert [] + Flatten(chunks[..i + 1]) == Flatten(chunks[..i + 1]);
      var pushed := session.PushPcm16(chunks[i]);
      if pushed.Failure? {
        if session.Undisturbed() {
          setup.PushAllStops([], chunks, i + 1);
        }
        session.Drop();
        return pushed;
      }
      updates := updates + pushed.value;
    }
    assert chunks[..|chunks|] == chunks;
    var last :- session.Finish();
    r := Success(updates + [last]);
  }
}
