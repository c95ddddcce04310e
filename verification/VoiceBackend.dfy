/** The backend operations both realtime transports use, with sanitized errors. */
module VoiceBackend {
  import opened Prelude
  import opened Pcm
  import opened Vad
  import T = Transcription

  datatype VoiceError = InvalidInput | Busy | Cancelled | DeadlineExceeded | Engine

  /** `map_stt_error`. */
  function MapSttError(error: T.SttError): VoiceError {
    match error
    case InvalidInput => VoiceError.InvalidInput
    case Audio => VoiceError.InvalidInput
    case Busy => VoiceError.Busy
    case Cancelled => VoiceError.Cancelled
    case DeadlineExceeded => VoiceError.DeadlineExceeded
    case Engine => VoiceError.Engine
  }

  /** An open recognition session: its configuration and the bytes it has accepted. */
  datatype Transcriber = Transcriber(setup: T.Setup, pushed: seq<Byte>)

  /** The engine behind the transports. */
  datatype Backend = Backend(recognizer: T.Recognizer, vad: VadConfig, limits: AudioLimits, maxChunkBytes: nat) {
    function SetupFor(rate: nat): T.Setup {
      T.Setup(recognizer, vad, limits, maxChunkBytes, rate)
    }

    predicate Valid() {
      && limits.Valid()
      && maxChunkBytes > 0
      && Tuning(vad, T.ENGINE_SAMPLE_RATE).Valid()
    }

    /** Opening a session; `fault` is whatever the environment may make the call fail with. */
    function Start(rate: nat, fault: Option<VoiceError>): (r: Result<Transcriber, VoiceError>)
      requires Valid()
      ensures r.Success? ==> r.value == Transcriber(SetupFor(rate), []) && r.value.setup.Valid()
    {
      if fault.Some? then Failure(fault.value)
      else if !SupportedRate(rate) then Failure(VoiceError.InvalidInput)
      else Success(Transcriber(SetupFor(rate), []))
    }
  }

  /** Pushing audio: the updates, or an error after which the transport drops the session. */
  function Push(t: Transcriber, bytes: seq<Byte>, fault: Option<VoiceError>): Result<seq<T.Transcript>, VoiceError>
    requires t.setup.Valid()
  {
    if fault.Some? then Failure(fault.value)
    else
      match t.setup.PushOutcome(t.pushed, bytes)
      case Success(updates) => Success(updates)
      case Failure(e) => Failure(MapSttError(e))
  }

  function Finish(t: Transcriber, fault: Option<VoiceError>): Result<T.Transcript, VoiceError>
    requires t.setup.Valid()
  {
    if fault.Some? then Failure(fault.value)
    else
      match t.setup.FinishOutcome(t.pushed)
      case Success(last) => Success(last)
      case Failure(e) => Failure(MapSttError(e))
  }

  /**
   * The backend fails as the environment makes it fail, and without that only because of what the client sent, which is
   * then an invalid request: a rate that is not supported, or a recording that is not one.
   */
  lemma StartFails(backend: Backend, rate: nat, fault: Option<VoiceError>)
    requires backend.Valid()
    ensures fault.Some? ==> backend.Start(rate, fault) == Failure(fault.value)
    ensures fault.None? ==>
              if SupportedRate(rate) then backend.Start(rate, fault).Success?
              else backend.Start(rate, fault) == Failure(VoiceError.InvalidInput)
  {
  }

  lemma PushFails(t: Transcriber, bytes: seq<Byte>, fault: Option<VoiceError>)
    requires t.setup.Valid()
    ensures fault.Some? ==> Push(t, bytes, fault) == Failure(fault.value)
    ensures fault.None? && Push(t, bytes, fault).Failure? ==> Push(t, bytes, fault).error == VoiceError.InvalidInput
  {
    hide T.Setup.Updates;
  }

  lemma FinishFails(t: Transcriber, fault: Option<VoiceError>)
    requires t.setup.Valid()
    ensures fault.Some? ==> Finish(t, fault) == Failure(fault.value)
    ensures fault.None? ==>
              if |t.pushed| % 2 == 0 && t.pushed != [] then Finish(t, fault).Success?
              else Finish(t, fault) == Failure(VoiceError.InvalidInput)
  {
    hide T.Setup.FinishOutcome;
    t.setup.FinishTotal(t.pushed);
    t.setup.FinishRefused(t.pushed);
  }

  /** An error keeps its kind on the way to the transports; a recording that is none is an invalid request. */
  lemma ErrorsKeepTheirKind()
    ensures MapSttError(T.InvalidInput) == VoiceError.InvalidInput && MapSttError(T.Audio) == VoiceError.InvalidInput
    ensures MapSttError(T.Busy) == VoiceError.Busy && MapSttError(T.Engine) == VoiceError.Engine
    ensures MapSttError(T.Cancelled) == VoiceError.Cancelled
    ensures MapSttError(T.DeadlineExceeded) == VoiceError.DeadlineExceeded
  {
  }

  /** A successful push extends the updates of the bytes before it to those of the bytes after it. */
  lemma PushExtends(t: Transcriber, bytes: seq<Byte>, fault: Option<VoiceError>)
    requires t.setup.Valid() && Push(t, bytes, fault).Success?
    ensures t.setup.Updates(t.pushed) + Push(t, bytes, fault).value == t.setup.Updates(t.pushed + bytes)
  {
    hide T.Setup.Updates, T.Setup.PushOutcome, T.Setup.Valid;
    t.setup.PushDelivers(t.pushed, bytes);
  }

  /** Every finish that answers, answers with a final transcript. */
  lemma FinishIsFinal(t: Transcriber, fault: Option<VoiceError>)
    requires t.setup.Valid() && Finish(t, fault).Success?
    ensures Finish(t, fault).value.kind == T.Final
    ensures t.setup.FinishOutcome(t.pushed) == Success(Finish(t, fault).value)
  {
  }
}
