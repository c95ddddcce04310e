/** The WebSocket protocol: what the server does with each thing it receives, and the traces that result. */
module Realtime {
  import opened Prelude
  import opened VoiceBackend
  import T = Transcription

  const MAX_WS_MESSAGE_BYTES: nat := 65536
  const TTS_CHUNK_BYTES: nat := 32768

  datatype Mode = Stt | Tts

  datatype ClientEvent =
    | SessionStart(mode: Mode, sampleRate: Option<nat>)
    | AudioAppend(bytes: nat)
    | AudioCommit
    | SpeechGenerate
    | Cancel
    | Ping
    | Close

  /** A received WebSocket message; `Text(None)` is text that is not a client event. */
  datatype Message =
    | Text(event: Option<ClientEvent>)
    | Binary(payload: seq<Byte>)
    | PingFrame
    | PongFrame
    | CloseFrame
    | Broken

  datatype Synthesis = Synthesis(rate: nat, pcm: seq<Byte>)

  /**
   * What the session waits for: a message, with the failure the backend would report if this message made the
   * session call it, or the end of a running synthesis.
   */
  datatype Input =
    | Receive(message: Message, fault: Option<VoiceError>)
    | WorkerDone(result: Result<Synthesis, VoiceError>)

  datatype Sent =
    | SessionReady
    | Update(transcript: T.Transcript)
    | SessionCompleted
    | SpeechMetadata(rate: nat)
    | SpeechChunk(audio: seq<Byte>)
    | SpeechCompleted
    | CancelledEvent
    | PongEvent
    | PongReply
    | ErrorEvent(code: string)
    | CloseSent(status: nat)

  /** Whether the loop goes on, and if not, whether it returned normally or with an error. */
  datatype Exit = Running | Returned | Failed

  datatype Session = Session(
    mode: Option<Mode>,
    pending: Option<nat>,
    transcriber: Option<Transcriber>,
    completed: bool,
    failure: Option<VoiceError>,
    cancelled: bool,
    speaking: bool,
    exit: Exit)

  const OPENED: Session := Session(None, None, None, false, None, false, false, Running)

  /** What an input makes the server send, and the session afterwards. */
  datatype Reaction = Reaction(session: Session, sent: seq<Sent>)

  function Fail(s: Session, code: string): Reaction {
    Reaction(s.(exit := Failed), [ErrorEvent(code)])
  }

  function ErrorCode(error: VoiceError): string {
    match error
    case InvalidInput => "invalid_request"
    case Busy => "overloaded"
    case Cancelled => "cancelled"
    case DeadlineExceeded => "deadline_exceeded"
    case Engine => "engine_error"
  }

  function FailBackend(s: Session, error: VoiceError): Reaction {
    Fail(s.(failure := Some(error)), ErrorCode(error))
  }

  function Updates(updates: seq<T.Transcript>): (sent: seq<Sent>)
    ensures |sent| == |updates|
    ensures forall i :: 0 <= i < |sent| ==> sent[i] == Update(updates[i])
  {
    seq(|updates|, i requires 0 <= i < |updates| => Update(updates[i]))
  }

  function SpeechChunks(pcm: seq<Byte>): (sent: seq<Sent>)
    ensures |sent| == |Chunks(pcm, TTS_CHUNK_BYTES)|
    ensures forall i :: 0 <= i < |sent| ==> sent[i] == SpeechChunk(Chunks(pcm, TTS_CHUNK_BYTES)[i])
  {
    seq(|Chunks(pcm, TTS_CHUNK_BYTES)|, i requires 0 <= i < |Chunks(pcm, TTS_CHUNK_BYTES)| =>
      SpeechChunk(Chunks(pcm, TTS_CHUNK_BYTES)[i]))
  }

  /** Every open transcriber has a usable configuration. */
  predicate Usable(s: Session) {
    s.transcriber.Some? ==> s.transcriber.value.setup.Valid()
  }

  /** `handle_client_event`. */
  function HandleEvent(backend: Backend, s: Session, event: ClientEvent, fault: Option<VoiceError>): Reaction
    requires backend.Valid() && Usable(s)
  {
    match event
    case SessionStart(mode, sampleRate) =>
      if s.mode.Some? then Fail(s, "invalid_sequence")
      else
        var started := s.(mode := Some(mode));
        if mode == Stt then
          if sampleRate.None? then Fail(started, "sample_rate_required")
          else
            match backend.Start(sampleRate.value, fault)
            case Failure(e) => FailBackend(started, e)
            case Success(transcriber) => Reaction(started.(transcriber := Some(transcriber)), [SessionReady])
        else if sampleRate.Some? then Fail(started, "sample_rate_not_allowed")
        else Reaction(started, [SessionReady])
    case AudioAppend(bytes) =>
      if s.mode == Some(Stt) && !s.completed && 0 < bytes <= MAX_WS_MESSAGE_BYTES
      then Reaction(s.(pending := Some(bytes)), [])
      else Fail(s, "invalid_sequence")
    case AudioCommit =>
      if s.mode == Some(Stt) && !s.completed then
        if s.transcriber.None? then Fail(s, "invalid_sequence")
        else
          var taken := s.(transcriber := None);
          match Finish(s.transcriber.value, fault)
          case Failure(e) => FailBackend(taken, e)
          case Success(last) => Reaction(taken.(completed := true), [Update(last), SessionCompleted])
      else Fail(s, "invalid_sequence")
    case SpeechGenerate =>
      if s.mode == Some(Tts) && !s.completed then Reaction(s.(speaking := true), [])
      else Fail(s, "invalid_sequence")
    case Cancel => Reaction(s.(cancelled := true, exit := Returned), [CancelledEvent])
    case Ping => Reaction(s, [PongEvent])
    case Close => Reaction(s.(exit := Returned), [])
  }

  /** One turn of the receive loop of `websocket_loop`. */
  function Listen(backend: Backend, s: Session, message: Message, fault: Option<VoiceError>): Reaction
    requires backend.Valid() && Usable(s)
  {
    match message
    case Text(event) =>
      if s.pending.Some? then Fail(s, "audio_frame_expected")
      else if event.None? then Fail(s, "invalid_json")
      else HandleEvent(backend, s, event.value, fault)
    case Binary(payload) =>
      if s.pending.None? then Fail(s, "audio_declaration_required")
      else
        var expected := s.pending.value;
        var taken := s.(pending := None);
        if |payload| != expected || expected > MAX_WS_MESSAGE_BYTES then Fail(taken, "audio_frame_invalid")
        else if s.transcriber.None? then Fail(taken, "stt_session_required")
        else
          var t := s.transcriber.value;
          (match Push(t, payload, fault)
           case Failure(e) => FailBackend(taken, e)
           case Success(updates) =>
             Reaction(taken.(transcriber := Some(t.(pushed := t.pushed + payload))), Updates(updates)))
    case PingFrame => Reaction(s, [PongReply])
    case PongFrame => Reaction(s, [])
    case CloseFrame => Reaction(s.(exit := Returned), [])
    case Broken => Reaction(s.(exit := Failed), [])
  }

  /** One turn of the `select!` loop while a synthesis runs: a message arrives first. */
  function Interrupt(s: Session, message: Message): Reaction {
    var stopped := s.(cancelled := true, speaking := false);
    match message
    case Text(event) =>
      (match event
       case None => Fail(stopped, "invalid_json")
       case Some(Cancel) => Reaction(stopped.(exit := Returned), [CancelledEvent])
       case Some(Close) => Reaction(stopped.(exit := Returned), [])
       case Some(Ping) => Reaction(s, [PongEvent])
       case Some(_) => Fail(stopped, "invalid_sequence"))
    case PingFrame => Reaction(s, [PongReply])
    case PongFrame => Reaction(s, [])
    case CloseFrame => Reaction(stopped.(exit := Returned), [])
    case Broken => Reaction(stopped.(exit := Returned), [])
    case Binary(_) => Fail(stopped, "invalid_sequence")
  }

  /** The synthesis ends first. */
  function Speak(s: Session, result: Result<Synthesis, VoiceError>): Reaction {
    var done := s.(speaking := false);
    match result
    case Failure(e) => FailBackend(done, e)
    case Success(synthesis) =>
      if s.cancelled then Reaction(done.(exit := Returned), [])
      else
        Reaction(done.(completed := true),
                 [SpeechMetadata(synthesis.rate)] + SpeechChunks(synthesis.pcm) + [SpeechCompleted])
  }

  /** What the session does with one input. No synthesis can end when none is running, so that changes nothing. */
  function React(backend: Backend, s: Session, input: Input): Reaction
    requires backend.Valid() && Usable(s)
  {
    if s.exit != Running then Reaction(s, [])
    else
      match input
      case WorkerDone(result) => if s.speaking then Speak(s, result) else Reaction(s, [])
      case Receive(message, fault) =>
        if s.speaking then Interrupt(s, message) else Listen(backend, s, message, fault)
  }

  lemma SameTranscriber(s: Session, after: Session)
    requires Usable(s)
    requires after.transcriber.None? || after.transcriber == s.transcriber
    ensures Usable(after)
  {
  }

  lemma PushedTranscriber(s: Session, after: Session)
    requires Usable(s) && s.transcriber.Some?
    requires after.transcriber.Some? && after.transcriber.value.setup == s.transcriber.value.setup
    ensures Usable(after)
  {
  }

  lemma StartUsable(backend: Backend, s: Session, mode: Mode, rate: Option<nat>, fault: Option<VoiceError>)
    requires backend.Valid() && Usable(s)
    ensures Usable(HandleEvent(backend, s, SessionStart(mode, rate), fault).session)
  {
    hide T.Setup.Valid, Backend.Start, Backend.Valid, ErrorCode, Usable, Finish;
    var after := HandleEvent(backend, s, SessionStart(mode, rate), fault).session;
    if after.transcriber == s.transcriber {
      SameTranscriber(s, after);
    } else {
      FreshTranscriber(after);
    }
  }

  lemma FreshTranscriber(after: Session)
    requires after.transcriber.Some? && after.transcriber.value.setup.Valid()
    ensures Usable(after)
  {
  }

  lemma HandleUsable(backend: Backend, s: Session, event: ClientEvent, fault: Option<VoiceError>)
    requires backend.Valid() && Usable(s)
    ensures Usable(HandleEvent(backend, s, event, fault).session)
  {
    hide Finish, T.Setup.Valid, Backend.Start, Backend.Valid, ErrorCode, Usable;
    match event {
      case SessionStart(mode, rate) => StartUsable(backend, s, mode, rate, fault);
      case _ => SameTranscriber(s, HandleEvent(backend, s, event, fault).session);
    }
  }

  lemma ListenUsable(backend: Backend, s: Session, message: Message, fault: Option<VoiceError>)
    requires backend.Valid() && Usable(s)
    ensures Usable(Listen(backend, s, message, fault).session)
  {
    hide Push, HandleEvent, T.Setup.Valid, Backend.Valid, ErrorCode, Updates, Usable;
    var after := Listen(backend, s, message, fault).session;
    if message.Text? && message.event.Some? && s.pending.None? {
      HandleUsable(backend, s, message.event.value, fault);
    } else if after.transcriber == s.transcriber {
      SameTranscriber(s, after);
    } else {
      PushedTranscriber(s, after);
    }
  }

  lemma ReactUsable(backend: Backend, s: Session, input: Input)
    requires backend.Valid() && Usable(s)
    ensures Usable(React(backend, s, input).session)
  {
    hide Listen, T.Setup.Valid, Backend.Valid, SpeechChunks, ErrorCode;
    if input.Receive? {
      ListenUsable(backend, s, input.message, input.fault);
    }
  }

  /** A whole run: everything sent, in order, and the session at the end of the inputs. */
  function Run(backend: Backend, inputs: seq<Input>): (r: Reaction)
    requires backend.Valid()
    ensures Usable(r.session)
  {
    if |inputs| == 0 then Reaction(OPENED, [])
    else
      var before := Run(backend, inputs[..|inputs| - 1]);
      ReactUsable(backend, before.session, inputs[|inputs| - 1]);
      var now := React(backend, before.session, inputs[|inputs| - 1]);
      Reaction(now.session, before.sent + now.sent)
  }

  lemma RunSnoc(backend: Backend, inputs: seq<Input>, last: Input)
    requires backend.Valid()
    ensures var before := Run(backend, inputs);
            var now := React(backend, before.session, last);
            Run(backend, inputs + [last]) == Reaction(now.session, before.sent + now.sent)
  {
    assert (inputs + [last])[..|inputs|] == inputs;
  }

  /** The close status for a loop that ran to its end; running out of messages counts as a normal return. */
  function CloseStatus(s: Session): nat {
    if s.exit == Failed then
      match s.failure
      case Some(Busy) => 1013
      case Some(DeadlineExceeded) => 1008
      case Some(Engine) => 1011
      case _ => 1002
    else 1000
  }

  /** What a running session always satisfies between turns. */
  predicate Consistent(s: Session) {
    s.exit == Running ==>
      && (s.transcriber.Some? <==> s.mode == Some(Stt) && !s.completed)
      && (s.pending.Some? ==> s.transcriber.Some? && 0 < s.pending.value <= MAX_WS_MESSAGE_BYTES)
      && (s.speaking ==> s.mode == Some(Tts) && !s.completed)
      && (s.completed ==> s.mode.Some?)
      && !s.cancelled
      && s.failure.None?
  }

  /** The states of a reader who checks the trace. */
  datatype Stage = Fresh | Ready | Listening(justFinal: bool) | Speaking | Done | Over | Bad

  /** The protocol's trace language, one event at a time. */
  function Next(stage: Stage, event: Sent): Stage {
    match event
    case PongEvent => if stage in {Over, Bad, Speaking} then Bad else if stage.Listening? then Listening(false) else stage
    case PongReply => if stage in {Over, Bad, Speaking} then Bad else if stage.Listening? then Listening(false) else stage
    case SessionReady => if stage == Fresh then Ready else Bad
    case Update(t) => if stage == Ready || stage.Listening? then Listening(t.kind == T.Final) else Bad
    case SessionCompleted => if stage == Listening(true) then Done else Bad
    case SpeechMetadata(_) => if stage == Ready then Speaking else Bad
    case SpeechChunk(_) => if stage == Speaking then Speaking else Bad
    case SpeechCompleted => if stage == Speaking then Done else Bad
    case CancelledEvent => if stage in {Over, Bad, Speaking} then Bad else Over
    case ErrorEvent(_) => if stage in {Over, Bad, Speaking} then Bad else Over
    case CloseSent(_) => Bad
  }

  function Scan(stage: Stage, trace: seq<Sent>): Stage {
    if |trace| == 0 then stage else Next(Scan(stage, trace[..|trace| - 1]), trace[|trace| - 1])
  }

  lemma {:induction false} ScanAppend(stage: Stage, a: seq<Sent>, b: seq<Sent>)
    ensures Scan(stage, a + b) == Scan(Scan(stage, a), b)
  {
    if |b| == 0 {
      assert a + b == a;
    } else {
      assert (a + b)[..|a + b| - 1] == a + b[..|b| - 1];
      ScanAppend(stage, a, b[..|b| - 1]);
    }
  }

  /** The stage the reader is in, told by the session. */
  predicate InStage(s: Session, stage: Stage) {
    && stage != Bad && stage != Speaking
    && (s.exit == Running ==>
          if s.mode.None? then stage == Fresh
          else if s.completed then stage == Done
          else if s.mode == Some(Stt) then stage == Ready || stage.Listening?
          else stage == Ready)
  }

  lemma {:induction false} ScanUpdates(stage: Stage, updates: seq<T.Transcript>)
    requires stage == Ready || stage.Listening?
    ensures var after := Scan(stage, Updates(updates));
            if |updates| == 0 then after == stage
            else after == Listening(updates[|updates| - 1].kind == T.Final)
  {
    if |updates| > 0 {
      var init := updates[..|updates| - 1];
      ScanUpdates(stage, init);
      assert Updates(updates)[..|updates| - 1] == Updates(init);
    }
  }

  lemma {:induction false} ScanSpeech(trace: seq<Sent>)
    requires forall i :: 0 <= i < |trace| ==> trace[i].SpeechChunk?
    ensures Scan(Speaking, trace) == Speaking
  {
    if |trace| > 0 {
      ScanSpeech(trace[..|trace| - 1]);
    }
  }

  lemma ScanOne(stage: Stage, event: Sent)
    ensures Scan(stage, [event]) == Next(stage, event)
    ensures Scan(stage, []) == stage
  {
    assert [event][..0] == [];
  }

  lemma ScanSpeechBlock(synthesis: Synthesis)
    ensures Scan(Ready, [SpeechMetadata(synthesis.rate)] + SpeechChunks(synthesis.pcm) + [SpeechCompleted]) == Done
  {
    var head, chunks := [SpeechMetadata(synthesis.rate)], SpeechChunks(synthesis.pcm);
    ScanOne(Ready, SpeechMetadata(synthesis.rate));
    ScanSpeech(chunks);
    ScanAppend(Ready, head, chunks);
    ScanAppend(Ready, head + chunks, [SpeechCompleted]);
    ScanOne(Speaking, SpeechCompleted);
  }

  /** A consistent session stays consistent, and what it sends keeps its trace in the language. */
  ghost predicate Keeps(stage: Stage, r: Reaction) {
    Consistent(r.session) && InStage(r.session, Scan(stage, r.sent))
  }

  /** While the loop runs, the trace is not over. */
  lemma StageOfRunning(s: Session, stage: Stage)
    requires InStage(s, stage) && s.exit == Running
    ensures stage in {Fresh, Ready, Done} || stage.Listening?
  {
  }

  /** What any single event sent by a turn does to the stage. */
  lemma ScanFirst(stage: Stage, sent: seq<Sent>)
    ensures |sent| == 0 ==> Scan(stage, sent) == stage
    ensures |sent| == 1 ==> Scan(stage, sent) == Next(stage, sent[0])
  {
    if |sent| == 1 {
      ScanOne(stage, sent[0]);
      assert sent == [sent[0]];
    }
  }

  lemma StartKeeps(backend: Backend, s: Session, mode: Mode, rate: Option<nat>, fault: Option<VoiceError>, stage: Stage)
    requires backend.Valid() && Usable(s) && Consistent(s) && s.exit == Running && s.pending.None? && !s.speaking
    requires InStage(s, stage)
    ensures Keeps(stage, HandleEvent(backend, s, SessionStart(mode, rate), fault))
  {
    hide T.Setup.Valid, Backend.Start, Backend.Valid, Scan, ErrorCode;
    ScanFirst(stage, HandleEvent(backend, s, SessionStart(mode, rate), fault).sent);
  }

  lemma CommitKeeps(backend: Backend, s: Session, fault: Option<VoiceError>, stage: Stage)
    requires backend.Valid() && Usable(s) && Consistent(s) && s.exit == Running && s.pending.None? && !s.speaking
    requires InStage(s, stage)
    ensures Keeps(stage, HandleEvent(backend, s, AudioCommit, fault))
  {
    hide Finish, T.Setup.Valid, Backend.Valid, Scan, ErrorCode;
    var r := HandleEvent(backend, s, AudioCommit, fault);
    ScanFirst(stage, r.sent);
    if r.session.completed && !s.completed {
      FinishIsFinal(s.transcriber.value, fault);
      ScanCommit(stage, Finish(s.transcriber.value, fault).value);
    }
  }

  lemma ScanCommit(stage: Stage, last: T.Transcript)
    requires (stage == Ready || stage.Listening?) && last.kind == T.Final
    ensures Scan(stage, [Update(last), SessionCompleted]) == Done
  {
    ScanOne(stage, Update(last));
    ScanAppend(stage, [Update(last)], [SessionCompleted]);
    ScanOne(Listening(true), SessionCompleted);
    assert [Update(last), SessionCompleted] == [Update(last)] + [SessionCompleted];
  }

  lemma HandleKeeps(backend: Backend, s: Session, event: ClientEvent, fault: Option<VoiceError>, stage: Stage)
    requires backend.Valid() && Usable(s) && Consistent(s) && s.exit == Running && s.pending.None? && !s.speaking
    requires InStage(s, stage)
    ensures Keeps(stage, HandleEvent(backend, s, event, fault))
  {
    hide Finish, T.Setup.Valid, Backend.Start, Backend.Valid, Scan, ErrorCode;
    match event {
      case SessionStart(mode, rate) => StartKeeps(backend, s, mode, rate, fault, stage);
      case AudioCommit => CommitKeeps(backend, s, fault, stage);
      case _ => ScanFirst(stage, HandleEvent(backend, s, event, fault).sent);
    }
  }

  lemma ListenKeeps(backend: Backend, s: Session, message: Message, fault: Option<VoiceError>, stage: Stage)
    requires backend.Valid() && Usable(s) && Consistent(s) && s.exit == Running && !s.speaking
    requires InStage(s, stage)
    ensures Keeps(stage, Listen(backend, s, message, fault))
  {
    hide Push, Finish, T.Setup.Valid, Backend.Valid, Scan, HandleEvent, Updates;
    StageOfRunning(s, stage);
    ScanOne(stage, PongReply);
    if message.Text? && s.pending.None? && message.event.Some? {
      HandleKeeps(backend, s, message.event.value, fault, stage);
    }
    var r := Listen(backend, s, message, fault);
    if !message.Text? && r.sent != [] && r.sent[0].ErrorEvent? {
      ScanOne(stage, r.sent[0]);
      assert r.sent == [r.sent[0]];
    }
    if message.Text? && (s.pending.Some? || message.event.None?) {
      ScanOne(stage, r.sent[0]);
    }
    if message.Binary? && s.transcriber.Some? && Push(s.transcriber.value, message.payload, fault).Success? {
      ScanUpdates(stage, Push(s.transcriber.value, message.payload, fault).value);
    }
  }

  lemma InterruptKeeps(s: Session, message: Message, stage: Stage)
    requires Consistent(s) && s.exit == Running && s.speaking && InStage(s, stage)
    ensures Keeps(stage, Interrupt(s, message))
  {
    hide Scan;
    var r := Interrupt(s, message);
    if r.sent != [] {
      ScanOne(stage, r.sent[0]);
      assert r.sent == [r.sent[0]];
    }
    ScanOne(stage, PongReply);
  }

  lemma SpeakKeeps(s: Session, result: Result<Synthesis, VoiceError>, stage: Stage)
    requires Consistent(s) && s.exit == Running && s.speaking && InStage(s, stage)
    ensures Keeps(stage, Speak(s, result))
  {
    hide Scan, SpeechChunks;
    match result {
      case Failure(e) => ScanOne(stage, ErrorEvent(ErrorCode(e)));
      case Success(synthesis) => ScanSpeechBlock(synthesis);
    }
  }

  lemma ReactKeeps(backend: Backend, s: Session, input: Input, stage: Stage)
    requires backend.Valid() && Usable(s) && Consistent(s) && InStage(s, stage)
    ensures Keeps(stage, React(backend, s, input))
  {
    hide Listen, Interrupt, Speak, Scan, T.Setup.Valid, Backend.Valid;
    ScanOne(stage, PongEvent);
    if s.exit == Running {
      match input {
        case WorkerDone(result) =>
          if s.speaking {
            SpeakKeeps(s, result, stage);
          }
        case Receive(message, fault) =>
          if s.speaking {
            InterruptKeeps(s, message, stage);
          } else {
            ListenKeeps(backend, s, message, fault, stage);
          }
      }
    }
  }

  /**
   * Every run, whatever the client sends and however the backend fails: the session stays consistent and the whole
   * trace is in the language.
   */
  lemma {:induction false} RunKeeps(backend: Backend, inputs: seq<Input>)
    requires backend.Valid()
    ensures var r := Run(backend, inputs);
            Consistent(r.session) && InStage(r.session, Scan(Fresh, r.sent))
  {
    hide React, Scan, T.Setup.Valid, Backend.Valid, InStage, Consistent;
    if |inputs| == 0 {
      RunNothing(backend);
      assert inputs == [];
    } else {
      var init, last := inputs[..|inputs| - 1], inputs[|inputs| - 1];
      assert init + [last] == inputs;
      var before := Run(backend, init);
      RunKeeps(backend, init);
      RunSnoc(backend, init, last);
      ReactKeeps(backend, before.session, last, Scan(Fresh, before.sent));
      ScanAppend(Fresh, before.sent, React(backend, before.session, last).sent);
    }
  }

  lemma RunNothing(backend: Backend)
    requires backend.Valid()
    ensures Run(backend, []) == Reaction(OPENED, [])
    ensures Consistent(OPENED) && InStage(OPENED, Scan(Fresh, []))
  {
    ScanOne(Fresh, PongEvent);
  }
}
