/**
 * Which messages the WebSocket protocol allows after what went before, told from the messages and events alone, and what
 * a synthesis session says.
 */
module RealtimeOrder {
  import opened Prelude
  import opened VoiceBackend
  import opened Realtime
  import R = RealtimeRuns
  import T = Transcription

  function Client(event: ClientEvent): Input {
    Receive(Text(Some(event)), None)
  }

  /** The client has been told that the session's work is done. */
  predicate ToldCompleted(sent: seq<Sent>) {
    SessionCompleted in sent || SpeechCompleted in sent
  }

  /** Whether the client may say this now: after this start, if any, and these events. */
  predicate Allowed(start: Option<ClientEvent>, sent: seq<Sent>, event: ClientEvent) {
    match event
    case SessionStart(_, _) => start.None?
    case AudioAppend(bytes) => Serves(start, Stt) && !ToldCompleted(sent) && 0 < bytes <= 65536
    case AudioCommit => Serves(start, Stt) && !ToldCompleted(sent)
    case SpeechGenerate => Serves(start, Tts) && !ToldCompleted(sent)
    case _ => true
  }

  predicate Serves(start: Option<ClientEvent>, mode: Mode) {
    start.Some? && start.value.SessionStart? && start.value.mode == mode
  }

  // ---- What the session knows is what the client was told

  lemma NoneCompletes(sent: seq<Sent>)
    requires forall i :: 0 <= i < |sent| ==> sent[i] != SessionCompleted && sent[i] != SpeechCompleted
    ensures !ToldCompleted(sent)
  {
  }

  lemma HandleCompletes(backend: Backend, s: Session, event: ClientEvent, fault: Option<VoiceError>)
    requires backend.Valid() && Usable(s) && Consistent(s) && s.exit == Running
    ensures var r := HandleEvent(backend, s, event, fault);
            r.session.exit == Running ==> (r.session.completed <==> s.completed || ToldCompleted(r.sent))
  {
    hide Finish, T.Setup.Valid, Backend.Start, Backend.Valid, ErrorCode, Usable;
  }

  lemma TurnCompletes(backend: Backend, s: Session, input: Input)
    requires backend.Valid() && Usable(s) && Consistent(s)
    ensures var r := React(backend, s, input);
            r.session.exit == Running ==> (r.session.completed <==> s.completed || ToldCompleted(r.sent))
  {
    hide Push, HandleEvent, T.Setup.Valid, Backend.Valid, ErrorCode, Updates, SpeechChunks;
    match input {
      case Receive(message, fault) =>
        if s.exit == Running && !s.speaking && message.Text? && message.event.Some? {
          HandleCompletes(backend, s, message.event.value, fault);
        }
        if message.Binary? && s.transcriber.Some? && Push(s.transcriber.value, message.payload, fault).Success? {
          NoneCompletes(Updates(Push(s.transcriber.value, message.payload, fault).value));
        }
      case WorkerDone(result) =>
    }
  }

  /** While a run goes on, the session is completed exactly if it has said so. */
  lemma {:induction false} CompletionIsTold(backend: Backend, inputs: seq<Input>)
    requires backend.Valid() && Run(backend, inputs).session.exit == Running
    ensures Run(backend, inputs).session.completed <==> ToldCompleted(Run(backend, inputs).sent)
  {
    hide React, T.Setup.Valid, Backend.Valid, Consistent, InStage, Scan, Usable;
    if |inputs| == 0 {
      RunNothing(backend);
      assert inputs == [];
    } else {
      var init, last := inputs[..|inputs| - 1], inputs[|inputs| - 1];
      assert init + [last] == inputs;
      R.LiveIfRunning(backend, inputs);
      CompletionIsTold(backend, init);
      RunKeeps(backend, init);
      RunSnoc(backend, init, last);
      TurnCompletes(backend, Run(backend, init).session, last);
      ToldAppend(Run(backend, init).sent, React(backend, Run(backend, init).session, last).sent);
    }
  }

  lemma ToldAppend(a: seq<Sent>, b: seq<Sent>)
    ensures ToldCompleted(a + b) <==> ToldCompleted(a) || ToldCompleted(b)
  {
  }

  /** The session's mode is that of the start. */
  lemma ModeIsStart(backend: Backend, inputs: seq<Input>)
    requires backend.Valid()
    ensures var start, mode := R.StartOf(backend, inputs), Run(backend, inputs).session.mode;
            && (start.None? <==> mode.None?)
            && (Serves(start, Stt) <==> mode == Some(Stt))
            && (Serves(start, Tts) <==> mode == Some(Tts))
  {
    hide Run, Backend.Valid, R.StartOf, R.Expected, R.SetupOf;
    R.RunTells(backend, inputs);
  }

  // ---- Order

  /** The session listens: it goes on, no synthesis runs and no declared frame is due. */
  predicate Listens(s: Session) {
    s.exit == Running && !s.speaking && s.pending.None?
  }

  lemma ListensTo(backend: Backend, inputs: seq<Input>, event: ClientEvent, fault: Option<VoiceError>)
    requires backend.Valid() && Listens(Run(backend, inputs).session)
    ensures var before, input := Run(backend, inputs), Receive(Text(Some(event)), fault);
            var r := HandleEvent(backend, before.session, event, fault);
            Run(backend, inputs + [input]) == Reaction(r.session, before.sent + r.sent)
  {
    hide Run, HandleEvent, Backend.Valid;
    RunSnoc(backend, inputs, Receive(Text(Some(event)), fault));
  }

  lemma EventKnows(backend: Backend, inputs: seq<Input>)
    requires backend.Valid() && Listens(Run(backend, inputs).session)
    ensures var s, start, sent :=
              Run(backend, inputs).session, R.StartOf(backend, inputs), Run(backend, inputs).sent;
            && (start.None? <==> s.mode.None?)
            && (Serves(start, Stt) && !ToldCompleted(sent) <==> s.mode == Some(Stt) && !s.completed)
            && (Serves(start, Tts) && !ToldCompleted(sent) <==> s.mode == Some(Tts) && !s.completed)
            && (s.mode == Some(Stt) && !s.completed ==> s.transcriber.Some?)
  {
    hide Run, Backend.Valid, R.StartOf, ToldCompleted, Serves, InStage, Scan;
    CompletionIsTold(backend, inputs);
    ModeIsStart(backend, inputs);
    RunKeeps(backend, inputs);
  }

  /**
   * A client event out of order, and only one out of order, ends the session with `invalid_sequence`. One in order does
   * what it is for.
   */
  lemma OrderIsEnforced(backend: Backend, inputs: seq<Input>, event: ClientEvent, fault: Option<VoiceError>)
    requires backend.Valid() && Listens(Run(backend, inputs).session)
    ensures var before, after := Run(backend, inputs), Run(backend, inputs + [Receive(Text(Some(event)), fault)]);
            Allowed(R.StartOf(backend, inputs), before.sent, event) <==>
              !(after.sent == before.sent + [ErrorEvent("invalid_sequence")] && after.session.exit == Failed)
  {
    hide Run, Backend.Valid, Backend.Start, Finish, R.StartOf, Usable, ToldCompleted, Serves;
    ListensTo(backend, inputs, event, fault);
    EventKnows(backend, inputs);
    CodesDiffer();
    var r := HandleEvent(backend, Run(backend, inputs).session, event, fault);
    Cancels(Run(backend, inputs).sent, r.sent, [ErrorEvent("invalid_sequence")]);
  }

  lemma Cancels(a: seq<Sent>, b: seq<Sent>, c: seq<Sent>)
    ensures a + b == a + c <==> b == c
  {
    if a + b == a + c {
      assert (a + b)[|a|..] == b && (a + c)[|a|..] == c;
    }
  }

  lemma CodesDiffer()
    ensures forall e: VoiceError :: ErrorCode(e) != "invalid_sequence"
    ensures "sample_rate_required" != "invalid_sequence" && "sample_rate_not_allowed" != "invalid_sequence"
  {
    assert |"invalid_sequence"| == 16 && |"invalid_request"| == 15 && |"overloaded"| == 10 && |"cancelled"| == 9;
    assert |"deadline_exceeded"| == 17 && |"engine_error"| == 12;
    assert "sample_rate_required"[0] == 's' && "sample_rate_not_allowed"[0] == 's' && "invalid_sequence"[0] == 'i';
  }

  /** What the events that need no state of their own do. */
  lemma PlainEvents(backend: Backend, inputs: seq<Input>, fault: Option<VoiceError>)
    requires backend.Valid() && Listens(Run(backend, inputs).session)
    ensures var before := Run(backend, inputs);
            var pinged := Run(backend, inputs + [Receive(Text(Some(Ping)), fault)]);
            var cancelled := Run(backend, inputs + [Receive(Text(Some(Cancel)), fault)]);
            var closed := Run(backend, inputs + [Receive(Text(Some(Close)), fault)]);
            && pinged == Reaction(before.session, before.sent + [PongEvent])
            && cancelled.session.exit == Returned && cancelled.sent == before.sent + [CancelledEvent]
            && closed.session.exit == Returned && closed.sent == before.sent
  {
    hide Run, Backend.Valid, Usable;
    ListensTo(backend, inputs, Ping, fault);
    ListensTo(backend, inputs, Cancel, fault);
    ListensTo(backend, inputs, Close, fault);
    assert Run(backend, inputs).sent + [] == Run(backend, inputs).sent;
  }

  /** A session starts for synthesis without a sample rate, and for recognition with one. */
  lemma StartsAsAsked(backend: Backend, inputs: seq<Input>, mode: Mode, rate: Option<nat>, fault: Option<VoiceError>)
    requires backend.Valid() && Listens(Run(backend, inputs).session) && R.StartOf(backend, inputs).None?
    ensures var before := Run(backend, inputs);
            var after := Run(backend, inputs + [Receive(Text(Some(SessionStart(mode, rate))), fault)]);
            && (mode == Tts && rate.None? ==> Listens(after.session) && after.sent == before.sent + [SessionReady])
            && (mode == Tts && rate.Some? ==>
                  after.session.exit == Failed && after.sent == before.sent + [ErrorEvent("sample_rate_not_allowed")])
            && (mode == Stt && rate.None? ==>
                  after.session.exit == Failed && after.sent == before.sent + [ErrorEvent("sample_rate_required")])
            && (mode == Stt && rate.Some? ==>
                  var started := backend.Start(rate.value, fault);
                  if started.Success? then Listens(after.session) && after.sent == before.sent + [SessionReady]
                  else
                    && after.session.exit == Failed
                    && after.sent == before.sent + [ErrorEvent(ErrorCode(started.error))])
  {
    hide Run, Backend.Valid, Backend.Start, R.StartOf, Usable, ErrorCode;
    ListensTo(backend, inputs, SessionStart(mode, rate), fault);
    EventKnows(backend, inputs);
  }

  /**
   * A declared frame must come next, in the declared size: any text is refused, and a binary message of another size;
   * without a declaration every binary message is.
   */
  lemma FramesAreDeclared(backend: Backend, inputs: seq<Input>, message: Message, fault: Option<VoiceError>)
    requires backend.Valid() && Run(backend, inputs).session.exit == Running && !Run(backend, inputs).session.speaking
    ensures var before, after := Run(backend, inputs), Run(backend, inputs + [Receive(message, fault)]);
            var refused := (code: string) =>
              after.session.exit == Failed && after.sent == before.sent + [ErrorEvent(code)];
            && (before.session.pending.Some? && message.Text? ==> refused("audio_frame_expected"))
            && (before.session.pending.None? && message == Text(None) ==> refused("invalid_json"))
            && (before.session.pending.None? && message.Binary? ==> refused("audio_declaration_required"))
            && (before.session.pending.Some? && message.Binary? && |message.payload| != before.session.pending.value ==>
                  refused("audio_frame_invalid"))
            && (message == PingFrame ==> after == Reaction(before.session, before.sent + [PongReply]))
            && (message == PongFrame ==> after == before)
            && (message == CloseFrame ==> after.session.exit == Returned && after.sent == before.sent)
            && (message == Broken ==> after.session.exit == Failed && after.sent == before.sent)
  {
    hide Run, HandleEvent, Push, Backend.Valid, T.Setup.Valid, Updates, ErrorCode;
    RunSnoc(backend, inputs, Receive(message, fault));
    assert Run(backend, inputs).sent + [] == Run(backend, inputs).sent;
  }

  /** An accepted declaration is answered by nothing, and the frame is then due. */
  lemma DeclarationWaits(backend: Backend, inputs: seq<Input>, bytes: nat, fault: Option<VoiceError>)
    requires backend.Valid() && Listens(Run(backend, inputs).session)
    requires Allowed(R.StartOf(backend, inputs), Run(backend, inputs).sent, AudioAppend(bytes))
    ensures var before := Run(backend, inputs);
            Run(backend, inputs + [Receive(Text(Some(AudioAppend(bytes))), fault)])
            == Reaction(before.session.(pending := Some(bytes)), before.sent)
  {
    hide Run, Backend.Valid, R.StartOf, Usable, ToldCompleted, Serves;
    ListensTo(backend, inputs, AudioAppend(bytes), fault);
    EventKnows(backend, inputs);
    assert Run(backend, inputs).sent + [] == Run(backend, inputs).sent;
  }

  // ---- Synthesis

  /** Pings and pongs, which change nothing. */
  predicate Idle(input: Input) {
    input.Receive? && input.message in {Text(Some(Ping)), PingFrame, PongFrame}
  }

  predicate AllIdle(inputs: seq<Input>) {
    forall i :: 0 <= i < |inputs| ==> Idle(inputs[i])
  }

  /** The answers to pings: one for each, a pong event to an event and a pong frame to a frame. */
  function Answers(inputs: seq<Input>): seq<Sent> {
    if |inputs| == 0 then []
    else
      var last := inputs[|inputs| - 1];
      Answers(inputs[..|inputs| - 1])
      + (if last.Receive? && last.message == Text(Some(Ping)) then [PongEvent]
         else if last.Receive? && last.message == PingFrame then [PongReply]
         else [])
  }

  lemma IdleTurn(backend: Backend, s: Session, input: Input)
    requires backend.Valid() && Usable(s) && s.exit == Running && s.pending.None? && Idle(input)
    ensures React(backend, s, input) == Reaction(s, Answers([input]))
  {
    hide Backend.Valid, T.Setup.Valid;
    assert [input][..0] == [];
  }

  lemma {:induction false} IdleKeeps(backend: Backend, inputs: seq<Input>, idle: seq<Input>)
    requires backend.Valid() && AllIdle(idle)
    requires var s := Run(backend, inputs).session; s.exit == Running && s.pending.None?
    ensures Run(backend, inputs + idle) == Reaction(Run(backend, inputs).session, Run(backend, inputs).sent + Answers(idle))
  {
    hide Run, React, Backend.Valid, Usable, Idle, Answers;
    if idle == [] {
      NoAnswers();
      assert inputs + idle == inputs && Run(backend, inputs).sent + [] == Run(backend, inputs).sent;
    } else {
      var init, last := idle[..|idle| - 1], idle[|idle| - 1];
      IdleKeeps(backend, inputs, init);
      RunSnoc(backend, inputs + init, last);
      IdleTurn(backend, Run(backend, inputs).session, last);
      assert inputs + init + [last] == inputs + idle && init + [last] == idle;
      OneAnswer(init, last);
      assert Run(backend, inputs).sent + Answers(init) + Answers([last])
          == Run(backend, inputs).sent + (Answers(init) + Answers([last]));
    }
  }

  lemma NoAnswers()
    ensures Answers([]) == []
  {
  }

  lemma OneAnswer(init: seq<Input>, last: Input)
    ensures Answers(init + [last]) == Answers(init) + Answers([last])
  {
    assert (init + [last])[..|init|] == init && [last][..0] == [];
  }

  /** The messages of a client that asks for one synthesis and pings as it likes. */
  function SpeechScript(before: seq<Input>, meanwhile: seq<Input>): seq<Input> {
    [Client(SessionStart(Tts, None))] + before + [Client(SpeechGenerate)] + meanwhile
  }

  /** A session that has been asked to speak, and has said nothing of it yet. */
  lemma Asked(backend: Backend, before: seq<Input>, meanwhile: seq<Input>)
    requires backend.Valid() && AllIdle(before) && AllIdle(meanwhile)
    ensures Run(backend, SpeechScript(before, meanwhile)) ==
              Reaction(OPENED.(mode := Some(Tts), speaking := true), [SessionReady] + Answers(before) + Answers(meanwhile))
  {
    hide Run, Backend.Valid, AllIdle;
    var start := Client(SessionStart(Tts, None));
    RunNothing(backend);
    ListensTo(backend, [], SessionStart(Tts, None), None);
    assert [] + [start] == [start];
    IdleKeeps(backend, [start], before);
    ListensTo(backend, [start] + before, SpeechGenerate, None);
    var asked := [start] + before + [Client(SpeechGenerate)];
    assert [SessionReady] + Answers(before) + [] == [SessionReady] + Answers(before);
    IdleKeeps(backend, asked, meanwhile);
  }

  /** The audio of a sequence of events. */
  function AudioOf(sent: seq<Sent>): seq<Byte> {
    if |sent| == 0 then []
    else AudioOf(sent[..|sent| - 1]) + (if sent[|sent| - 1].SpeechChunk? then sent[|sent| - 1].audio else [])
  }

  lemma {:induction false} AudioOfChunks(chunks: seq<seq<Byte>>, sent: seq<Sent>)
    requires |sent| == |chunks| && forall i :: 0 <= i < |sent| ==> sent[i] == SpeechChunk(chunks[i])
    ensures AudioOf(sent) == Flatten(chunks)
  {
    if |sent| > 0 {
      AudioOfChunks(chunks[..|chunks| - 1], sent[..|sent| - 1]);
    }
  }

  /**
   * A synthesis session speaks: it answers `session_ready`, then the pings, and when the synthesis is done the metadata,
   * the audio in chunks of bounded size and `speech_completed`, and is completed. If the synthesis fails, the session
   * ends with that error.
   */
  lemma SpeechIsSpoken(backend: Backend, before: seq<Input>, meanwhile: seq<Input>, result: Result<Synthesis, VoiceError>)
    requires backend.Valid() && AllIdle(before) && AllIdle(meanwhile)
    ensures var r := Run(backend, SpeechScript(before, meanwhile) + [WorkerDone(result)]);
            var earlier := [SessionReady] + Answers(before) + Answers(meanwhile);
            match result
            case Success(synthesis) =>
              && Listens(r.session) && r.session.completed
              && exists chunks: seq<Sent> ::
                   && r.sent == earlier + [SpeechMetadata(synthesis.rate)] + chunks + [SpeechCompleted]
                   && (forall i :: 0 <= i < |chunks| ==> chunks[i].SpeechChunk? && 0 < |chunks[i].audio| <= 32768)
                   && (forall i :: 0 <= i < |chunks| - 1 ==> |chunks[i].audio| == 32768)
                   && AudioOf(chunks) == synthesis.pcm
            case Failure(e) =>
              r.session.exit == Failed && r.session.failure == Some(e) && r.sent == earlier + [ErrorEvent(ErrorCode(e))]
  {
    hide Run, Backend.Valid, AllIdle, SpeechScript, ErrorCode, SpeechChunks, AudioOf;
    Asked(backend, before, meanwhile);
    RunSnoc(backend, SpeechScript(before, meanwhile), WorkerDone(result));
    if result.Success? {
      var pcm := result.value.pcm;
      var chunks := SpeechChunks(pcm);
      var earlier := [SessionReady] + Answers(before) + Answers(meanwhile);
      ChunksFlatten(pcm, TTS_CHUNK_BYTES);
      ChunksShape(pcm, TTS_CHUNK_BYTES);
      AudioOfChunks(Chunks(pcm, TTS_CHUNK_BYTES), chunks);
      assert earlier + ([SpeechMetadata(result.value.rate)] + chunks + [SpeechCompleted])
          == earlier + [SpeechMetadata(result.value.rate)] + chunks + [SpeechCompleted];
    }
  }

  /**
   * While a synthesis runs, a client can cancel it or leave; anything but that and a ping is refused, and none of it is
   * followed by a word of the speech.
   */
  lemma SpeechIsInterrupted(backend: Backend, inputs: seq<Input>, message: Message, fault: Option<VoiceError>)
    requires backend.Valid() && Run(backend, inputs).session.exit == Running && Run(backend, inputs).session.speaking
    requires !Idle(Receive(message, fault))
    ensures var before, after := Run(backend, inputs), Run(backend, inputs + [Receive(message, fault)]);
            && after.session.exit ==
                 (if message in {Text(Some(Cancel)), Text(Some(Close)), CloseFrame, Broken} then Returned else Failed)
            && after.sent == before.sent
                 + (if message == Text(Some(Cancel)) then [CancelledEvent]
                    else if message == Text(None) then [ErrorEvent("invalid_json")]
                    else if message in {Text(Some(Close)), CloseFrame, Broken} then []
                    else [ErrorEvent("invalid_sequence")])
  {
    hide Run, Backend.Valid, T.Setup.Valid;
    RunSnoc(backend, inputs, Receive(message, fault));
  }
}
