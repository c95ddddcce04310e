/** The WebSocket handlers as they run: a session state updated in place, a socket, and the session deadline. */
module RealtimeLoop {
  import opened Prelude
  import opened VoiceBackend
  import opened Realtime
  import R = RealtimeRuns
  import T = Transcription

  /** How a handler ends: the loop goes on, returns, fails, or was dropped at an await by the session deadline. */
  datatype Flow = Continue | Return | Error | Expired

  /** What becomes of an attempt to send: it succeeds, fails, or the session deadline drops it. */
  datatype Fate = Passed | Lost | Late

  /** How a handler ends whose send did not succeed. */
  function Stopped(fate: Fate): Flow {
    if fate == Late then Expired else Error
  }

  datatype Arrival = Arrived(input: Input) | EndOfStream | TimedOut

  /**
   * The client's end: what will arrive, which attempts to send fail, and how many messages and attempts to send there
   * may be before the session deadline.
   */
  class Socket {
    const fails: nat -> bool
    var incoming: seq<Input>
    var received: seq<Input>
    var sent: seq<Sent>
    var attempts: nat
    var deadline: Option<nat>

    constructor (incoming: seq<Input>, deadline: Option<nat>, fails: nat -> bool)
      ensures this.incoming == incoming && this.deadline == deadline && this.fails == fails
      ensures sent == [] && received == [] && attempts == 0
    {
      this.incoming, this.deadline, this.fails := incoming, deadline, fails;
      sent, received, attempts := [], [], 0;
    }

    /** Everything that arrives, read or not. */
    ghost function Arriving(): seq<Input>
      reads `incoming, `received
    {
      received + incoming
    }

    /** The session deadline strikes now. */
    predicate Due()
      reads `received, `attempts, `deadline
    {
      deadline == Some(|received| + attempts)
    }

    ghost predicate InTime()
      reads `received, `attempts, `deadline
    {
      R.InTime(|received| + attempts, deadline)
    }

    /** Nothing has been lost. */
    ghost predicate Smooth()
      reads `sent, `attempts, `received, `deadline
    {
      attempts == |sent| && R.Pass(fails, attempts) && InTime()
    }

    /** The last attempt to send was the first to fail. */
    ghost predicate LostOne()
      reads `sent, `attempts, `received, `deadline
    {
      attempts == |sent| + 1 && R.Pass(fails, |sent|) && fails(|sent|) && InTime()
    }

    method Send(event: Sent) returns (fate: Fate)
      modifies `sent, `attempts
      ensures fate == if old(Due()) then Late else if fails(old(attempts)) then Lost else Passed
      ensures sent == if fate == Passed then old(sent) + [event] else old(sent)
      ensures attempts == if fate == Late then old(attempts) else old(attempts) + 1
      ensures old(Smooth()) ==> if fate == Lost then LostOne() else Smooth()
    {
      if Due() {
        return Late;
      }
      fate := if fails(attempts) then Lost else Passed;
      attempts := attempts + 1;
      if fate == Passed {
        sent := sent + [event];
      }
    }

    /** Sends one event after the other, as far as the deadline and the socket allow. */
    method SendEach(events: seq<Sent>) returns (fate: Fate)
      requires Smooth()
      modifies `sent, `attempts
      ensures fate == Passed ==> sent == old(sent) + events
      ensures fate != Passed ==>
                |old(sent)| <= |sent| < |old(sent)| + |events|
                && sent == old(sent) + events[..|sent| - |old(sent)|]
      ensures if fate == Lost then LostOne() else Smooth()
      ensures fate == Late ==> Due()
    {
      for i := 0 to |events|
        invariant sent == old(sent) + events[..i] && Smooth()
      {
        fate := Send(events[i]);
        if fate != Passed {
          return;
        }
        assert events[..i + 1] == events[..i] + [events[i]];
      }
      assert events[..|events|] == events;
      return Passed;
    }

    method Receive() returns (a: Arrival)
      modifies `incoming, `received
      ensures Arriving() == old(Arriving()) && (old(Smooth()) ==> Smooth())
      ensures a.Arrived? ==> old(incoming) == [a.input] + incoming && received == old(received) + [a.input]
      ensures !a.Arrived? ==> incoming == old(incoming) && received == old(received)
      ensures a.TimedOut? <==> old(Due())
      ensures a.EndOfStream? ==> incoming == []
    {
      if Due() {
        return TimedOut;
      }
      if |incoming| == 0 {
        return EndOfStream;
      }
      a := Arrived(incoming[0]);
      received := received + [incoming[0]];
      incoming := incoming[1..];
    }
  }

  // ---- Where a run may be cut

  lemma NotEndedYet(backend: Backend, inputs: seq<Input>)
    requires backend.Valid() && Run(backend, inputs).session.exit == Running
    ensures var sent := Run(backend, inputs).sent; |sent| > 0 ==> !R.IsEnd(sent[|sent| - 1])
    ensures Run(backend, inputs).session.failure.None?
  {
    hide Run, Scan, Backend.Valid;
    RunKeeps(backend, inputs);
    hide Consistent;
    StageOfRunning(Run(backend, inputs).session, Scan(Fresh, Run(backend, inputs).sent));
    R.StageTells(Run(backend, inputs).sent);
  }

  /** The deadline may strike while the loop waits. */
  lemma MayExpireWaiting(backend: Backend, inputs: seq<Input>, fails: nat -> bool)
    requires backend.Valid() && Run(backend, inputs).session.exit == Running
    requires R.Pass(fails, |Run(backend, inputs).sent|)
    ensures var sent := Run(backend, inputs).sent;
            R.PossibleEnding(backend, inputs, R.DeadlineCut(|sent|), fails) && sent[..|sent|] == sent
  {
    hide Run, React, Backend.Valid;
    NotEndedYet(backend, inputs);
    if |inputs| > 0 {
      assert inputs[..|inputs| - 1] + [inputs[|inputs| - 1]] == inputs;
      RunSnoc(backend, inputs[..|inputs| - 1], inputs[|inputs| - 1]);
    }
  }

  /** It may strike before any send of a turn whose earlier sends end nothing, and any such send may fail. */
  lemma MayStopSending(backend: Backend, inputs: seq<Input>, input: Input, k: nat, fails: nat -> bool)
    requires backend.Valid() && Run(backend, inputs).session.exit == Running
    requires var now := React(backend, Run(backend, inputs).session, input).sent;
             k < |now| && forall i :: 0 <= i < k ==> !R.IsEnd(now[i])
    requires R.Pass(fails, |Run(backend, inputs).sent| + k)
    ensures var before := Run(backend, inputs);
            var now := React(backend, before.session, input).sent;
            var cut := |before.sent| + k;
            && R.PossibleEnding(backend, inputs + [input], R.DeadlineCut(cut), fails)
            && (fails(cut) ==> R.PossibleEnding(backend, inputs + [input], R.SendBroke(cut), fails))
            && Run(backend, inputs + [input]).sent[..cut] == before.sent + now[..k]
            && Run(backend, inputs + [input]).sent[cut] == now[k]
  {
    hide Run, React, Backend.Valid;
    NotEndedYet(backend, inputs);
    RunSnoc(backend, inputs, input);
    assert (inputs + [input])[..|inputs|] == inputs;
  }

  // ---- The session

  class SessionState {
    var mode: Option<Mode>
    var pendingAudio: Option<nat>
    var transcriber: Option<Transcriber>
    var completed: bool
    var failure: Option<VoiceError>
    var cancelled: bool

    constructor ()
      ensures View(false) == OPENED
    {
      mode, pendingAudio, transcriber, completed, failure, cancelled := None, None, None, false, None, false;
    }

    function View(speaking: bool): Session
      reads this
    {
      Session(mode, pendingAudio, transcriber, completed, failure, cancelled, speaking, Running)
    }

    /** The session and the socket are where the run over these inputs is. */
    ghost predicate At(backend: Backend, socket: Socket, inputs: seq<Input>, speaking: bool)
      requires backend.Valid()
      reads this, socket`sent, socket`attempts, socket`received, socket`deadline
    {
      Run(backend, inputs) == Reaction(View(speaking), socket.sent) && socket.Smooth()
    }

    /** What arrives is as before, and no more of it is left to read. */
    ghost predicate Arrives(socket: Socket, arriving: seq<Input>, left: nat)
      reads socket`incoming, socket`received
    {
      socket.Arriving() == arriving && |socket.incoming| <= left
    }

    /** A send failed, at a place where the session knows of a failure only if it was telling the client about it. */
    ghost predicate Severed(backend: Backend, socket: Socket)
      requires backend.Valid()
      reads `failure, socket`sent, socket`attempts, socket`received, socket`deadline
    {
      var r := Run(backend, socket.received);
      var cut := |socket.sent|;
      && socket.LostOne()
      && R.PossibleEnding(backend, socket.received, R.SendBroke(cut), socket.fails)
      && socket.sent == r.sent[..cut]
      && (r.sent[cut].ErrorEvent? ==> failure == r.session.failure && r.session.exit == Failed)
      && (!r.sent[cut].ErrorEvent? ==> failure.None?)
    }

    /**
     * Where a handler has got to, by how it ended. It goes on only where the run goes on. It returns only if the run
     * has, or nothing more arrives; it fails only if the run has, or a send failed; it is dropped only when the deadline
     * strikes. And it reads nothing after the run has ended.
     */
    ghost predicate After(backend: Backend, socket: Socket, flow: Flow)
      requires backend.Valid()
      reads this, socket
    {
      var r := Run(backend, socket.received);
      && R.Live(backend, socket.received)
      && match flow
         case Continue => At(backend, socket, socket.received, false)
         case Return =>
           && socket.Smooth()
           && socket.sent == r.sent
           && (r.session.exit == Returned || (r.session.exit == Running && socket.incoming == [] && !socket.Due()))
         case Error =>
           || Severed(backend, socket)
           || (socket.Smooth() && socket.sent == r.sent && r.session.exit == Failed && failure == r.session.failure)
         case Expired =>
           && socket.Smooth()
           && socket.Due()
           && R.PossibleEnding(backend, socket.received, R.DeadlineCut(|socket.sent|), socket.fails)
           && socket.sent == r.sent[..|socket.sent|]
    }

    /** A turn that stops before its `k`-th send, which the deadline drops or which fails. */
    lemma StopsAt(backend: Backend, socket: Socket, k: nat, fate: Fate, prior: seq<Input>, input: Input)
      requires backend.Valid() && socket.received == prior + [input]
      requires Run(backend, prior).session.exit == Running
      requires var r := React(backend, Run(backend, prior).session, input);
               && k < |r.sent| && (forall i :: 0 <= i < k ==> !R.IsEnd(r.sent[i]))
               && socket.sent == Run(backend, prior).sent + r.sent[..k]
               && (r.sent[k].ErrorEvent? ==> failure == r.session.failure && r.session.exit == Failed)
               && (!r.sent[k].ErrorEvent? ==> failure.None?)
      requires (fate == Late && socket.Smooth() && socket.Due()) || (fate == Lost && socket.LostOne())
      ensures After(backend, socket, Stopped(fate))
    {
      hide Run, React, Backend.Valid, R.PossibleEnding;
      RunSnoc(backend, prior, input);
      R.LiveSnoc(backend, prior, input);
      MayStopSending(backend, prior, input, k, socket.fails);
      R.LiveSnoc(backend, prior, input);
    }

    /** `send_error` followed by an error return. */
    method Fail(backend: Backend, socket: Socket, code: string, ghost prior: seq<Input>, ghost input: Input)
      returns (flow: Flow)
      requires backend.Valid() && socket.received == prior + [input]
      requires Run(backend, prior).session.exit == Running && socket.sent == Run(backend, prior).sent && socket.Smooth()
      requires var r := React(backend, Run(backend, prior).session, input);
               r.session.exit == Failed && r.session.failure == failure && r.sent == [ErrorEvent(code)]
      modifies socket`sent, socket`attempts
      ensures flow in {Error, Expired} && After(backend, socket, flow)
    {
      hide Run, React, Backend.Valid;
      var fate := socket.Send(ErrorEvent(code));
      RunSnoc(backend, prior, input);
      R.LiveSnoc(backend, prior, input);
      if fate != Passed {
        StopsAt(backend, socket, 0, fate, prior, input);
        return Stopped(fate);
      }
      return Error;
    }

    /** `fail_backend`. */
    method FailBackend(backend: Backend, socket: Socket, error: VoiceError, ghost prior: seq<Input>, ghost input: Input)
      returns (flow: Flow)
      requires backend.Valid() && socket.received == prior + [input]
      requires Run(backend, prior).session.exit == Running && socket.sent == Run(backend, prior).sent && socket.Smooth()
      requires var r := React(backend, Run(backend, prior).session, input);
               r.session.exit == Failed && r.session.failure == Some(error) && r.sent == [ErrorEvent(ErrorCode(error))]
      modifies `failure, socket`sent, socket`attempts
      ensures flow in {Error, Expired} && After(backend, socket, flow)
    {
      hide Run, React, Backend.Valid, ErrorCode;
      failure := Some(error);
      flow := Fail(backend, socket, ErrorCode(error), prior, input);
    }

    /** Sends what a turn that goes on, or returns, has to say. */
    method Say(backend: Backend, socket: Socket, events: seq<Sent>, after: Flow, ghost prior: seq<Input>,
               ghost input: Input)
      returns (flow: Flow)
      requires backend.Valid() && socket.received == prior + [input]
      requires Run(backend, prior).session.exit == Running && socket.sent == Run(backend, prior).sent && socket.Smooth()
      requires React(backend, Run(backend, prior).session, input).sent == events
      requires failure.None? && forall i :: 0 <= i < |events| ==> !events[i].ErrorEvent?
      requires forall i :: 0 <= i < |events| - 1 ==> !R.IsEnd(events[i])
      requires var s := React(backend, Run(backend, prior).session, input).session;
               (after == Continue && s == View(false)) || (after == Return && s.exit == Returned)
      modifies socket`sent, socket`attempts
      ensures flow in {after, Expired, Error} && After(backend, socket, flow)
    {
      hide Run, React, Backend.Valid;
      ghost var before := socket.sent;
      var fate := socket.SendEach(events);
      RunSnoc(backend, prior, input);
      R.LiveSnoc(backend, prior, input);
      if fate != Passed {
        StopsAt(backend, socket, |socket.sent| - |before|, fate, prior, input);
        return Stopped(fate);
      }
      return after;
    }

    /** The `SpeechGenerate` arm: wait for the synthesis while listening, then send the whole speech. */
    method Generate(backend: Backend, socket: Socket, ghost prior: seq<Input>, ghost input: Input) returns (flow: Flow)
      requires backend.Valid() && socket.received == prior + [input]
      requires At(backend, socket, prior, false) && Usable(View(false)) && failure.None?
      requires React(backend, View(false), input) == Reaction(View(true), [])
      modifies this, socket`incoming, socket`received, socket`sent, socket`attempts
      ensures After(backend, socket, flow) && Arrives(socket, old(socket.Arriving()), |old(socket.incoming)|)
    {
      hide Run, React, Backend.Valid, T.Setup.Valid, SpeechChunks, ErrorCode, R.PossibleEnding, R.Live, R.InTime, R.Pass;
      RunSnoc(backend, prior, input);
      R.LiveSnoc(backend, prior, input);
      assert socket.sent + [] == socket.sent;
      while true
        invariant At(backend, socket, socket.received, true) && failure.None?
        invariant Arrives(socket, old(socket.Arriving()), |old(socket.incoming)|)
        decreases |socket.incoming|
      {
        ghost var earlier := socket.received;
        var a := socket.Receive();
        match a {
          case TimedOut =>
            MayExpireWaiting(backend, earlier, socket.fails);
            R.LiveIfRunning(backend, earlier);
            return Expired;
          case EndOfStream =>
            R.LiveIfRunning(backend, earlier);
            cancelled := true;
            return Return;
          case Arrived(event) =>
            RunSnoc(backend, earlier, event);
            R.LiveSnoc(backend, earlier, event);
            assert socket.sent + [] == socket.sent;
            match event {
              case WorkerDone(result) =>
                SpeakReacts(backend, View(true), result);
                if result.Failure? {
                  flow := FailBackend(backend, socket, result.error, earlier, event);
                  return;
                }
                flow := Publish(backend, socket, result.value, earlier, event);
                return;
              case Receive(message, fault) =>
                flow := Interrupted(backend, socket, message, fault, earlier);
                if flow != Continue {
                  return;
                }
            }
        }
      }
    }

    /** A message during a synthesis: only pings and pongs let it go on. */
    method Interrupted(backend: Backend, socket: Socket, message: Message, fault: Option<VoiceError>,
                       ghost prior: seq<Input>)
      returns (flow: Flow)
      requires backend.Valid() && socket.received == prior + [Receive(message, fault)]
      requires At(backend, socket, prior, true) && Usable(View(true)) && failure.None?
      modifies `cancelled, socket`sent, socket`attempts
      ensures if flow == Continue then At(backend, socket, socket.received, true) && failure.None?
              else After(backend, socket, flow)
    {
      hide Run, React, Backend.Valid, T.Setup.Valid, ErrorCode, R.PossibleEnding, R.Live, R.InTime, R.Pass, Usable;
      ghost var input := Receive(message, fault);
      RunSnoc(backend, prior, input);
      R.LiveSnoc(backend, prior, input);
      InterruptReacts(backend, View(true), input);
      assert socket.sent + [] == socket.sent;
      match message {
        case Text(None) =>
          cancelled := true;
          flow := Fail(backend, socket, "invalid_json", prior, input);
        case Text(Some(Cancel)) =>
          cancelled := true;
          flow := Say(backend, socket, [CancelledEvent], Return, prior, input);
        case Text(Some(Close)) =>
          cancelled := true;
          return Return;
        case Text(Some(Ping)) =>
          flow := Answer(backend, socket, PongEvent, prior, input);
        case Text(Some(_)) =>
          cancelled := true;
          flow := Fail(backend, socket, "invalid_sequence", prior, input);
        case PingFrame =>
          flow := Answer(backend, socket, PongReply, prior, input);
        case PongFrame =>
          return Continue;
        case CloseFrame =>
          cancelled := true;
          return Return;
        case Broken =>
          cancelled := true;
          return Return;
        case Binary(_) =>
          cancelled := true;
          flow := Fail(backend, socket, "invalid_sequence", prior, input);
      }
    }

    /** Answers a ping during a synthesis. */
    method Answer(backend: Backend, socket: Socket, event: Sent, ghost prior: seq<Input>, ghost input: Input)
      returns (flow: Flow)
      requires backend.Valid() && socket.received == prior + [input]
      requires At(backend, socket, prior, true) && failure.None? && !event.ErrorEvent?
      requires React(backend, View(true), input) == Reaction(View(true), [event])
      modifies socket`sent, socket`attempts
      ensures flow != Return
      ensures if flow == Continue then At(backend, socket, socket.received, true) else After(backend, socket, flow)
    {
      hide Run, React, Backend.Valid, R.PossibleEnding;
      RunSnoc(backend, prior, input);
      R.LiveSnoc(backend, prior, input);
      var fate := socket.Send(event);
      if fate != Passed {
        StopsAt(backend, socket, 0, fate, prior, input);
        return Stopped(fate);
      }
      return Continue;
    }

    /** The speech after a successful synthesis. */
    method Publish(backend: Backend, socket: Socket, synthesis: Synthesis, ghost prior: seq<Input>, ghost input: Input)
      returns (flow: Flow)
      requires backend.Valid() && socket.received == prior + [input]
      requires At(backend, socket, prior, true) && failure.None?
      requires React(backend, View(true), input) == Speak(View(true), Success(synthesis))
      modifies `completed, socket`sent, socket`attempts
      ensures After(backend, socket, flow)
    {
      hide Run, React, Backend.Valid, SpeechChunks, R.PossibleEnding, SpeechEvents, R.Pass;
      RunSnoc(backend, prior, input);
      R.LiveSnoc(backend, prior, input);
      if cancelled {
        assert socket.sent + [] == socket.sent;
        return Return;
      }
      ghost var before := socket.sent;
      ghost var chunks := SpeechChunks(synthesis.pcm);
      ghost var k := 0;
      SpeechPrefix(synthesis, before, 0);
      var fate := socket.Send(SpeechMetadata(synthesis.rate));
      if fate == Passed {
        fate := socket.SendEach(SpeechChunks(synthesis.pcm));
        k := |socket.sent| - |before|;
        SpeechPrefix(synthesis, before, k);
        assert fate == Passed ==> chunks == chunks[..k - 1];
        if fate == Passed {
          completed := true;
          fate := socket.Send(SpeechCompleted);
          if fate == Passed {
            return Continue;
          }
        }
      }
      StopsAt(backend, socket, k, fate, prior, input);
      return Stopped(fate);
    }

    /** The `SessionStart` arm. */
    method Start(backend: Backend, socket: Socket, requested: Mode, sampleRate: Option<nat>, fault: Option<VoiceError>,
                 ghost prior: seq<Input>)
      returns (flow: Flow)
      requires backend.Valid()
      requires socket.received == prior + [Receive(Text(Some(SessionStart(requested, sampleRate))), fault)]
      requires At(backend, socket, prior, false) && Usable(View(false)) && failure.None? && pendingAudio.None?
      modifies this, socket`sent, socket`attempts
      ensures After(backend, socket, flow)
    {
      hide Run, React, Backend.Valid, T.Setup.Valid, ErrorCode, R.PossibleEnding, Usable, Backend.Start, CloseStatus;
      ghost var input := Receive(Text(Some(SessionStart(requested, sampleRate))), fault);
      TextReacts(backend, View(false), input);
      if mode.Some? {
        flow := Fail(backend, socket, "invalid_sequence", prior, input);
        return;
      }
      mode := Some(requested);
      if requested == Stt {
        if sampleRate.None? {
          flow := Fail(backend, socket, "sample_rate_required", prior, input);
          return;
        }
        match backend.Start(sampleRate.value, fault) {
          case Success(t) => transcriber := Some(t);
          case Failure(e) =>
            flow := FailBackend(backend, socket, e, prior, input);
            return;
        }
      } else if sampleRate.Some? {
        flow := Fail(backend, socket, "sample_rate_not_allowed", prior, input);
        return;
      }
      flow := Say(backend, socket, [SessionReady], Continue, prior, input);
    }

    /** The `AudioCommit` arm. */
    method Commit(backend: Backend, socket: Socket, fault: Option<VoiceError>, ghost prior: seq<Input>)
      returns (flow: Flow)
      requires backend.Valid() && socket.received == prior + [Receive(Text(Some(AudioCommit)), fault)]
      requires At(backend, socket, prior, false) && Usable(View(false)) && failure.None? && pendingAudio.None?
      modifies this, socket`sent, socket`attempts
      ensures After(backend, socket, flow)
    {
      hide Run, React, Backend.Valid, T.Setup.Valid, Finish, ErrorCode, R.PossibleEnding, Usable, CloseStatus;
      ghost var input := Receive(Text(Some(AudioCommit)), fault);
      TextReacts(backend, View(false), input);
      if mode == Some(Stt) && !completed && transcriber.Some? {
        var t := transcriber.value;
        transcriber := None;
        match Finish(t, fault) {
          case Failure(e) => flow := FailBackend(backend, socket, e, prior, input);
          case Success(last) =>
            completed := true;
            flow := Say(backend, socket, [Update(last), SessionCompleted], Continue, prior, input);
        }
        return;
      }
      flow := Fail(backend, socket, "invalid_sequence", prior, input);
    }

    /** `handle_client_event`. */
    method HandleClientEvent(backend: Backend, socket: Socket, event: ClientEvent, fault: Option<VoiceError>,
                             ghost prior: seq<Input>)
      returns (flow: Flow)
      requires backend.Valid() && socket.received == prior + [Receive(Text(Some(event)), fault)]
      requires At(backend, socket, prior, false) && Usable(View(false)) && failure.None? && pendingAudio.None?
      modifies this, socket`incoming, socket`received, socket`sent, socket`attempts
      ensures After(backend, socket, flow) && Arrives(socket, old(socket.Arriving()), |old(socket.incoming)|)
    {
      hide Run, React, Backend.Valid, T.Setup.Valid, Finish, ErrorCode, R.PossibleEnding, Usable, Backend.Start,
           CloseStatus;
      ghost var input := Receive(Text(Some(event)), fault);
      TextReacts(backend, View(false), input);
      RunSnoc(backend, prior, input);
      R.LiveSnoc(backend, prior, input);
      match event {
        case SessionStart(requested, sampleRate) =>
          flow := Start(backend, socket, requested, sampleRate, fault, prior);
        case AudioAppend(bytes) =>
          if mode == Some(Stt) && !completed && 0 < bytes <= MAX_WS_MESSAGE_BYTES {
            pendingAudio := Some(bytes);
            assert socket.sent + [] == socket.sent;
            return Continue;
          }
          flow := Fail(backend, socket, "invalid_sequence", prior, input);
        case AudioCommit =>
          flow := Commit(backend, socket, fault, prior);
        case SpeechGenerate =>
          if mode == Some(Tts) && !completed {
            flow := Generate(backend, socket, prior, input);
            return;
          }
          flow := Fail(backend, socket, "invalid_sequence", prior, input);
        case Cancel =>
          cancelled := true;
          flow := Say(backend, socket, [CancelledEvent], Return, prior, input);
        case Ping =>
          flow := Say(backend, socket, [PongEvent], Continue, prior, input);
        case Close =>
          assert socket.sent + [] == socket.sent;
          return Return;
      }
    }

    /** A binary message: the declared frame, or an error. */
    method HandleAudio(backend: Backend, socket: Socket, payload: seq<Byte>, fault: Option<VoiceError>,
                       ghost prior: seq<Input>)
      returns (flow: Flow)
      requires backend.Valid() && socket.received == prior + [Receive(Binary(payload), fault)]
      requires At(backend, socket, prior, false) && Usable(View(false)) && failure.None?
      modifies this, socket`sent, socket`attempts
      ensures After(backend, socket, flow)
    {
      hide Run, React, Backend.Valid, T.Setup.Valid, Push, ErrorCode, R.PossibleEnding, Usable, Updates;
      ghost var input := Receive(Binary(payload), fault);
      ListenReacts(backend, View(false), input);
      UsableTranscriber(View(false));
      if pendingAudio.None? {
        flow := Fail(backend, socket, "audio_declaration_required", prior, input);
        return;
      }
      var expected := pendingAudio.value;
      pendingAudio := None;
      if |payload| != expected || expected > MAX_WS_MESSAGE_BYTES {
        flow := Fail(backend, socket, "audio_frame_invalid", prior, input);
        return;
      }
      if transcriber.None? {
        flow := Fail(backend, socket, "stt_session_required", prior, input);
        return;
      }
      var t := transcriber.value;
      match Push(t, payload, fault) {
        case Failure(e) => flow := FailBackend(backend, socket, e, prior, input);
        case Success(updates) =>
          transcriber := Some(t.(pushed := t.pushed + payload));
          flow := Say(backend, socket, Updates(updates), Continue, prior, input);
      }
    }

    /** `websocket_loop`: every message the client sends, until the loop returns, fails or is cut by the deadline. */
    method Loop(backend: Backend, socket: Socket) returns (flow: Flow)
      requires backend.Valid() && View(false) == OPENED
      requires socket.sent == [] && socket.received == [] && socket.attempts == 0
      modifies this, socket`incoming, socket`received, socket`sent, socket`attempts
      ensures flow != Continue && After(backend, socket, flow) && socket.Arriving() == old(socket.Arriving())
    {
      hide Run, React, Backend.Valid, T.Setup.Valid, ErrorCode, R.PossibleEnding, Usable, R.Live;
      RunNothing(backend);
      while true
        invariant At(backend, socket, socket.received, false) && socket.Arriving() == old(socket.Arriving())
        decreases |socket.incoming|
      {
        ghost var prior := socket.received;
        NotEndedYet(backend, prior);
        var a := socket.Receive();
        match a {
          case TimedOut =>
            MayExpireWaiting(backend, prior, socket.fails);
            R.LiveIfRunning(backend, prior);
            return Expired;
          case EndOfStream =>
            R.LiveIfRunning(backend, prior);
            return Return;
          case Arrived(input) =>
            RunSnoc(backend, prior, input);
            R.LiveSnoc(backend, prior, input);
            ListenReacts(backend, View(false), input);
            assert socket.sent + [] == socket.sent;
            flow := Continue;
            match input {
              case WorkerDone(_) =>
              case Receive(message, fault) =>
                match message {
                  case Text(event) =>
                    if pendingAudio.Some? {
                      flow := Fail(backend, socket, "audio_frame_expected", prior, input);
                    } else if event.None? {
                      flow := Fail(backend, socket, "invalid_json", prior, input);
                    } else {
                      flow := HandleClientEvent(backend, socket, event.value, fault, prior);
                    }
                  case Binary(payload) =>
                    flow := HandleAudio(backend, socket, payload, fault, prior);
                  case PingFrame =>
                    flow := Say(backend, socket, [PongReply], Continue, prior, input);
                  case PongFrame =>
                  case CloseFrame => flow := Return;
                  case Broken => flow := Error;
                }
            }
            if flow != Continue {
              return;
            }
        }
      }
    }
  }

  /**
   * `websocket_session`: the loop under its deadline, then the close frame. How it ends, and so what gets through to the
   * client, is determined by what arrives, by the deadline and by the sends that fail.
   */
  method WebsocketSession(backend: Backend, socket: Socket) returns (ghost ending: R.Ending)
    requires backend.Valid() && socket.sent == [] && socket.received == [] && socket.attempts == 0
    modifies socket
    ensures R.Outcome(backend, old(socket.incoming), old(socket.deadline), socket.fails, socket.received, ending)
    ensures socket.sent == R.Observed(backend, socket.received, ending, socket.fails)
  {
    hide Run, Backend.Valid, Scan, R.LastWords, R.Outcome, R.PossibleEnding, R.Status, CloseStatus, R.Pass,
         R.FirstOfFarewell;
    var session := new SessionState();
    assert socket.Arriving() == socket.incoming;
    var flow := session.Loop(backend, socket);
    ending := if flow == Expired then R.DeadlineCut(|socket.sent|)
              else if socket.attempts > |socket.sent| then R.SendBroke(|socket.sent|)
              else R.LoopEnded;
    LoopEnds(backend, session, socket, flow, ending);
    R.LastWordsAre(backend, socket.received, ending, socket.fails);
    socket.deadline := None;
    if flow == Expired {
      var _ := socket.Send(ErrorEvent("deadline_exceeded"));
    }
    var _ := socket.Send(CloseSent(StatusOf(flow, session.failure)));
  }

  /** The close status `websocket_session` chooses. */
  function StatusOf(flow: Flow, failure: Option<VoiceError>): nat {
    if flow == Expired then 1008
    else if flow == Error then CloseStatus(OPENED.(exit := Failed, failure := failure))
    else 1000
  }

  /** How the loop ended, read off what it left behind. */
  lemma LoopEnds(backend: Backend, session: SessionState, socket: Socket, flow: Flow, ending: R.Ending)
    requires backend.Valid() && flow != Continue && session.After(backend, socket, flow)
    requires ending == if flow == Expired then R.DeadlineCut(|socket.sent|)
                       else if socket.attempts > |socket.sent| then R.SendBroke(|socket.sent|)
                       else R.LoopEnded
    ensures R.PossibleEnding(backend, socket.received, ending, socket.fails)
    ensures R.Outcome(backend, socket.Arriving(), socket.deadline, socket.fails, socket.received, ending)
    ensures socket.sent == Run(backend, socket.received).sent[..R.Kept(backend, socket.received, ending)]
    ensures socket.attempts == R.FirstOfFarewell(backend, socket.received, ending)
    ensures R.Status(backend, socket.received, ending) == StatusOf(flow, session.failure)
  {
    hide Run, Backend.Valid, R.Cuttable;
    var sent := Run(backend, socket.received).sent;
    assert sent[..|sent|] == sent;
  }

  lemma TextReacts(backend: Backend, s: Session, input: Input)
    requires backend.Valid() && Usable(s) && !s.speaking && s.exit == Running && s.pending.None?
    requires input.Receive? && input.message.Text? && input.message.event.Some?
    ensures React(backend, s, input) == HandleEvent(backend, s, input.message.event.value, input.fault)
    ensures s.transcriber.Some? ==> s.transcriber.value.setup.Valid()
  {
  }

  lemma ListenReacts(backend: Backend, s: Session, input: Input)
    requires backend.Valid() && Usable(s) && !s.speaking && s.exit == Running
    ensures React(backend, s, input) ==
            if input.WorkerDone? then Reaction(s, []) else Listen(backend, s, input.message, input.fault)
  {
  }

  lemma UsableTranscriber(s: Session)
    requires Usable(s)
    ensures s.transcriber.Some? ==> s.transcriber.value.setup.Valid()
  {
  }

  /** Everything a completed synthesis sends. */
  ghost function SpeechEvents(synthesis: Synthesis): (events: seq<Sent>)
    ensures |events| == |SpeechChunks(synthesis.pcm)| + 2
    ensures forall i :: 0 <= i < |events| ==> !R.IsEnd(events[i])
  {
    [SpeechMetadata(synthesis.rate)] + SpeechChunks(synthesis.pcm) + [SpeechCompleted]
  }

  /** The first `k` events of a speech, after what was sent before it. */
  lemma SpeechPrefix(synthesis: Synthesis, before: seq<Sent>, k: nat)
    requires k < |SpeechEvents(synthesis)|
    ensures before + SpeechEvents(synthesis)[..0] == before
    ensures k > 0 ==>
              before + SpeechEvents(synthesis)[..k]
              == before + [SpeechMetadata(synthesis.rate)] + SpeechChunks(synthesis.pcm)[..k - 1]
    ensures before + SpeechEvents(synthesis)
         == before + [SpeechMetadata(synthesis.rate)] + SpeechChunks(synthesis.pcm) + [SpeechCompleted]
    ensures Speak(OPENED.(speaking := true), Success(synthesis)).sent == SpeechEvents(synthesis)
  {
  }

  lemma SpeakReacts(backend: Backend, s: Session, result: Result<Synthesis, VoiceError>)
    requires backend.Valid() && Usable(s) && s.speaking && s.exit == Running
    ensures React(backend, s, WorkerDone(result)) == Speak(s, result)
  {
  }

  lemma InterruptReacts(backend: Backend, s: Session, input: Input)
    requires backend.Valid() && Usable(s) && s.speaking && s.exit == Running && input.Receive?
    ensures React(backend, s, input) == Interrupt(s, input.message)
  {
  }
}
