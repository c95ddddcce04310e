/** What the WebSocket protocol promises about whole runs. */
module RealtimeRuns {
  import opened Prelude
  import opened Pcm
  import opened VoiceBackend
  import opened Realtime
  import T = Transcription

  // ---- Reading the trace language

  lemma {:induction false} ScanPrefix(stage: Stage, trace: seq<Sent>, k: nat)
    requires k <= |trace| && Scan(stage, trace) != Bad
    ensures Scan(stage, trace[..k]) != Bad
    decreases |trace|
  {
    if k == |trace| {
      assert trace[..k] == trace;
    } else {
      var init := trace[..|trace| - 1];
      ScanPrefix(stage, init, k);
      assert init[..k] == trace[..k];
    }
  }

  lemma ScanAt(trace: seq<Sent>, i: nat)
    requires i < |trace| && Scan(Fresh, trace) != Bad
    ensures Next(Scan(Fresh, trace[..i]), trace[i]) == Scan(Fresh, trace[..i + 1]) != Bad
    ensures Scan(Fresh, trace[..i]) != Bad
  {
    ScanPrefix(Fresh, trace, i);
    ScanPrefix(Fresh, trace, i + 1);
    assert trace[..i + 1][..i] == trace[..i];
  }

  predicate IsEnd(event: Sent) {
    event.ErrorEvent? || event.CancelledEvent?
  }

  predicate IsSpeechPart(event: Sent) {
    event.SpeechMetadata? || event.SpeechChunk?
  }

  predicate IsFinalUpdate(event: Sent) {
    event.Update? && event.transcript.kind == T.Final
  }

  /** What the reader knows about the trace from the stage alone. */
  lemma {:induction false} StageTells(trace: seq<Sent>)
    requires Scan(Fresh, trace) != Bad
    ensures var stage := Scan(Fresh, trace);
            && (stage == Fresh ==> SessionReady !in trace)
            && (stage in {Ready, Speaking, Done} || stage.Listening? ==> SessionReady in trace)
            && (stage in {Fresh, Ready, Speaking} || stage.Listening? ==> SessionCompleted !in trace)
            && (stage == Listening(true) ==> |trace| > 0 && IsFinalUpdate(trace[|trace| - 1]))
            && (stage == Over <==> |trace| > 0 && IsEnd(trace[|trace| - 1]))
            && (stage == Speaking <==> |trace| > 0 && IsSpeechPart(trace[|trace| - 1]))
  {
    if |trace| > 0 {
      var init := trace[..|trace| - 1];
      ScanPrefix(Fresh, trace, |trace| - 1);
      StageTells(init);
      assert trace == init + [trace[|trace| - 1]];
    }
  }

  /** `session_ready` comes at most once, and before every transcript and every part of a speech. */
  lemma ReadyComesFirst(trace: seq<Sent>, i: nat)
    requires i < |trace| && Scan(Fresh, trace) != Bad
    ensures trace[i] == SessionReady ==> SessionReady !in trace[..i]
    ensures trace[i].Update? || trace[i].SessionCompleted? || IsSpeechPart(trace[i]) || trace[i].SpeechCompleted? ==>
              SessionReady in trace[..i]
  {
    ScanAt(trace, i);
    StageTells(trace[..i]);
  }

  /** `session_completed` comes at most once, directly after a final transcript, and no transcript follows it. */
  lemma CompletedFollowsFinal(trace: seq<Sent>, i: nat)
    requires i < |trace| && Scan(Fresh, trace) != Bad
    ensures trace[i] == SessionCompleted ==> i > 0 && IsFinalUpdate(trace[i - 1]) && SessionCompleted !in trace[..i]
    ensures trace[i].Update? ==> SessionCompleted !in trace[..i]
  {
    ScanAt(trace, i);
    StageTells(trace[..i]);
  }

  /** A speech is one block: metadata, then chunks, then `speech_completed`, with nothing in between. */
  lemma SpeechIsContiguous(trace: seq<Sent>, i: nat)
    requires i < |trace| && Scan(Fresh, trace) != Bad
    ensures trace[i].SpeechChunk? || trace[i].SpeechCompleted? ==> i > 0 && IsSpeechPart(trace[i - 1])
    ensures IsSpeechPart(trace[i]) ==>
              i == |trace| - 1 || trace[i + 1].SpeechChunk? || trace[i + 1].SpeechCompleted?
    ensures trace[i].SpeechMetadata? ==> i == 0 || !IsSpeechPart(trace[i - 1])
  {
    ScanAt(trace, i);
    StageTells(trace[..i]);
    if i < |trace| - 1 {
      ScanAt(trace, i + 1);
      StageTells(trace[..i + 1]);
    }
  }

  /** Nothing follows an `error` or `cancelled` event, and the loop itself never sends a close frame. */
  lemma NothingFollowsTheEnd(trace: seq<Sent>, i: nat)
    requires i < |trace| && Scan(Fresh, trace) != Bad
    ensures IsEnd(trace[i]) ==> i == |trace| - 1
    ensures !trace[i].CloseSent?
  {
    ScanAt(trace, i);
    StageTells(trace[..i + 1]);
    if i < |trace| - 1 {
      ScanAt(trace, i + 1);
    }
  }

  // ---- The whole connection, with its close frame

  /**
   * How a connection ended: the loop returned or failed, the session deadline cut it after `cut` sends, or the send
   * after `cut` others failed.
   */
  datatype Ending = LoopEnded | DeadlineCut(cut: nat) | SendBroke(cut: nat)

  /** The first `n` attempts to send succeed. */
  ghost predicate Pass(fails: nat -> bool, n: nat) {
    forall i :: 0 <= i < n ==> !fails(i)
  }

  /** A run can stop short after `cut` sends: they reach into its last turn and none of them ended the session. */
  predicate Cuttable(backend: Backend, inputs: seq<Input>, cut: nat)
    requires backend.Valid()
  {
    var sent := Run(backend, inputs).sent;
    && cut <= |sent|
    && (cut > 0 ==> !IsEnd(sent[cut - 1]))
    && (|inputs| > 0 ==> |Run(backend, inputs[..|inputs| - 1]).sent| <= cut)
  }

  /** Nothing was read after the run had ended. */
  predicate Live(backend: Backend, inputs: seq<Input>)
    requires backend.Valid()
  {
    |inputs| > 0 ==> Run(backend, inputs[..|inputs| - 1]).session.exit == Running
  }

  /** So many messages and attempts to send come before the session deadline. */
  predicate InTime(awaits: nat, deadline: Option<nat>) {
    deadline.Some? ==> awaits <= deadline.value
  }

  /** The endings a connection with these inputs may have, when the attempts to send fail as `fails` says. */
  ghost predicate PossibleEnding(backend: Backend, inputs: seq<Input>, ending: Ending, fails: nat -> bool)
    requires backend.Valid()
  {
    var r := Run(backend, inputs);
    && Pass(fails, Kept(backend, inputs, ending))
    && match ending
       case LoopEnded => true
       case DeadlineCut(cut) => Cuttable(backend, inputs, cut) && (cut == |r.sent| ==> r.session.exit == Running)
       case SendBroke(cut) => Cuttable(backend, inputs, cut) && cut < |r.sent| && fails(cut)
  }

  /** How many sends of the loop succeed. */
  function Kept(backend: Backend, inputs: seq<Input>, ending: Ending): nat
    requires backend.Valid()
  {
    if ending.LoopEnded? then |Run(backend, inputs).sent| else ending.cut
  }

  /** The close status of a connection. */
  function Status(backend: Backend, inputs: seq<Input>, ending: Ending): nat
    requires backend.Valid()
  {
    var r := Run(backend, inputs);
    match ending
    case LoopEnded => CloseStatus(r.session)
    case DeadlineCut(_) => 1008
    case SendBroke(cut) => if cut < |r.sent| && r.sent[cut].ErrorEvent? then CloseStatus(r.session) else 1002
  }

  /** What `websocket_session` tries to send after the loop. */
  function Farewell(ending: Ending, status: nat): seq<Sent> {
    if ending.DeadlineCut? then [ErrorEvent("deadline_exceeded"), CloseSent(status)] else [CloseSent(status)]
  }

  /** Which of these events get through, when the first of them is the attempt with this number. */
  function Delivered(events: seq<Sent>, attempt: nat, fails: nat -> bool): (got: seq<Sent>)
    ensures forall e :: e in got ==> e in events
  {
    if events == [] then []
    else (if fails(attempt) then [] else [events[0]]) + Delivered(events[1..], attempt + 1, fails)
  }

  /** The number of the first attempt to send after the loop. */
  function FirstOfFarewell(backend: Backend, inputs: seq<Input>, ending: Ending): nat
    requires backend.Valid()
  {
    Kept(backend, inputs, ending) + if ending.SendBroke? then 1 else 0
  }

  /** What gets through after the loop. */
  function LastWords(backend: Backend, inputs: seq<Input>, ending: Ending, fails: nat -> bool): seq<Sent>
    requires backend.Valid()
  {
    Delivered(Farewell(ending, Status(backend, inputs, ending)), FirstOfFarewell(backend, inputs, ending), fails)
  }

  /** Everything `websocket_session` gets through to the client. */
  ghost function Observed(backend: Backend, inputs: seq<Input>, ending: Ending, fails: nat -> bool): seq<Sent>
    requires backend.Valid() && PossibleEnding(backend, inputs, ending, fails)
  {
    Run(backend, inputs).sent[..Kept(backend, inputs, ending)] + LastWords(backend, inputs, ending, fails)
  }

  /**
   * What becomes of a connection to which this arrives, under this deadline, when the attempts to send fail as `fails`
   * says: what is read of it, and how the connection ends.
   */
  ghost predicate Outcome(backend: Backend, arriving: seq<Input>, deadline: Option<nat>, fails: nat -> bool,
                          received: seq<Input>, ending: Ending)
    requires backend.Valid()
  {
    var r := Run(backend, received);
    && received <= arriving
    && Live(backend, received)
    && PossibleEnding(backend, received, ending, fails)
    && InTime(|received| + FirstOfFarewell(backend, received, ending), deadline)
    && match ending
       case LoopEnded => r.session.exit != Running || (received == arriving && deadline != Some(|received| + |r.sent|))
       case DeadlineCut(cut) => deadline == Some(|received| + cut)
       case SendBroke(_) => true
  }

  /**
   * There is only one such outcome: what arrives, the deadline and the failing sends determine what is read and how the
   * connection ends, and with that everything the client gets.
   */
  lemma OutcomeIsUnique(backend: Backend, arriving: seq<Input>, deadline: Option<nat>, fails: nat -> bool,
                        a: seq<Input>, one: Ending, b: seq<Input>, other: Ending)
    requires backend.Valid()
    requires Outcome(backend, arriving, deadline, fails, a, one)
    requires Outcome(backend, arriving, deadline, fails, b, other)
    ensures a == b && one == other
  {
    hide Run, Backend.Valid;
    NotShorter(backend, arriving, deadline, fails, a, one, b, other);
    NotShorter(backend, arriving, deadline, fails, b, other, a, one);
    assert a == arriving[..|a|] == b;
  }

  /** A connection that reads more goes past every place where one that reads less could end. */
  lemma NotShorter(backend: Backend, arriving: seq<Input>, deadline: Option<nat>, fails: nat -> bool,
                   a: seq<Input>, one: Ending, b: seq<Input>, other: Ending)
    requires backend.Valid()
    requires Outcome(backend, arriving, deadline, fails, a, one)
    requires Outcome(backend, arriving, deadline, fails, b, other)
    ensures |b| <= |a|
  {
    hide Run, Backend.Valid;
    if |a| < |b| {
      var init := b[..|b| - 1];
      assert a == arriving[..|a|] == init[..|a|];
      RunPrefix(backend, init, |a|);
      RunExtends(backend, b);
    }
  }

  lemma RunExtends(backend: Backend, inputs: seq<Input>)
    requires backend.Valid() && |inputs| > 0
    ensures Run(backend, inputs[..|inputs| - 1]).sent <= Run(backend, inputs).sent
  {
    hide Run, React, Backend.Valid;
    assert inputs[..|inputs| - 1] + [inputs[|inputs| - 1]] == inputs;
    RunSnoc(backend, inputs[..|inputs| - 1], inputs[|inputs| - 1]);
  }

  /** While a run goes on, every prefix of it went on, and had sent less. */
  lemma {:induction false} RunPrefix(backend: Backend, inputs: seq<Input>, k: nat)
    requires backend.Valid() && k <= |inputs|
    ensures Run(backend, inputs[..k]).sent <= Run(backend, inputs).sent
    ensures Run(backend, inputs).session.exit == Running ==> Run(backend, inputs[..k]).session.exit == Running
    decreases |inputs|
  {
    hide Run, React, Backend.Valid;
    if k == |inputs| {
      assert inputs[..k] == inputs;
    } else {
      var init := inputs[..|inputs| - 1];
      assert init[..k] == inputs[..k];
      RunPrefix(backend, init, k);
      RunExtends(backend, inputs);
      LiveIfRunning(backend, inputs);
    }
  }

  lemma LiveIfRunning(backend: Backend, inputs: seq<Input>)
    requires backend.Valid()
    ensures Run(backend, inputs).session.exit == Running ==> Live(backend, inputs)
  {
    hide Run, React, Backend.Valid;
    if |inputs| > 0 {
      var init := inputs[..|inputs| - 1];
      assert init + [inputs[|inputs| - 1]] == inputs;
      RunSnoc(backend, init, inputs[|inputs| - 1]);
      if Run(backend, init).session.exit != Running {
        StoppedStays(backend, Run(backend, init).session, inputs[|inputs| - 1]);
      }
    }
  }

  lemma LiveSnoc(backend: Backend, inputs: seq<Input>, last: Input)
    requires backend.Valid() && Run(backend, inputs).session.exit == Running
    ensures Live(backend, inputs + [last])
  {
    hide Run, Backend.Valid;
    assert (inputs + [last])[..|inputs|] == inputs;
  }

  lemma LastWordsAre(backend: Backend, inputs: seq<Input>, ending: Ending, fails: nat -> bool)
    requires backend.Valid()
    ensures var status := Status(backend, inputs, ending);
            var first := FirstOfFarewell(backend, inputs, ending);
            var close := (attempt: nat) => if fails(attempt) then [] else [CloseSent(status)];
            LastWords(backend, inputs, ending, fails) ==
              if ending.DeadlineCut? then
                (if fails(first) then [] else [ErrorEvent("deadline_exceeded")]) + close(first + 1)
              else close(first)
  {
    hide Run, Status, Kept, Backend.Valid;
    var status := Status(backend, inputs, ending);
    var first := FirstOfFarewell(backend, inputs, ending);
    assert Delivered([CloseSent(status)], first, fails) == if fails(first) then [] else [CloseSent(status)];
    assert Farewell(ending, status)[1..] == if ending.DeadlineCut? then [CloseSent(status)] else [];
    assert Delivered([CloseSent(status)], first + 1, fails) == if fails(first + 1) then [] else [CloseSent(status)];
  }

  /**
   * Every connection's output is a word of the protocol's language, unfinished in no place but a speech and cut by
   * nothing but the deadline or a failing send, followed by at most one close frame.
   */
  lemma ObservedIsWellFormed(backend: Backend, inputs: seq<Input>, ending: Ending, fails: nat -> bool)
    requires backend.Valid() && PossibleEnding(backend, inputs, ending, fails)
    ensures var o := Observed(backend, inputs, ending, fails);
            var kept := Kept(backend, inputs, ending);
            && kept <= |o| <= kept + 2
            && Scan(Fresh, o[..kept]) != Bad
            && (if ending.LoopEnded? then Scan(Fresh, o[..kept]) != Speaking else Scan(Fresh, o[..kept]) != Over)
            && (forall i :: 0 <= i < |o| - 1 ==> !o[i].CloseSent?)
    ensures var o := Observed(backend, inputs, ending, fails);
            var close := FirstOfFarewell(backend, inputs, ending) + if ending.DeadlineCut? then 1 else 0;
            !fails(close) <==> |o| > 0 && o[|o| - 1].CloseSent?
    ensures var o := Observed(backend, inputs, ending, fails);
            |o| > 0 && o[|o| - 1].CloseSent? ==> o[|o| - 1] == CloseSent(Status(backend, inputs, ending))
  {
    hide Run, Scan, Backend.Valid, LastWords, Status, PossibleEnding;
    KeptIsWellFormed(backend, inputs, ending, fails);
    LastWordsAre(backend, inputs, ending, fails);
    var kept := Run(backend, inputs).sent[..Kept(backend, inputs, ending)];
    assert Observed(backend, inputs, ending, fails)[..|kept|] == kept;
  }

  /** The part of this that concerns the loop. */
  lemma KeptIsWellFormed(backend: Backend, inputs: seq<Input>, ending: Ending, fails: nat -> bool)
    requires backend.Valid() && PossibleEnding(backend, inputs, ending, fails)
    ensures Kept(backend, inputs, ending) <= |Run(backend, inputs).sent|
    ensures var kept := Run(backend, inputs).sent[..Kept(backend, inputs, ending)];
            && Scan(Fresh, kept) != Bad
            && (if ending.LoopEnded? then Scan(Fresh, kept) != Speaking else Scan(Fresh, kept) != Over)
            && (forall i :: 0 <= i < |kept| ==> !kept[i].CloseSent?)
  {
    hide Run, Scan, Backend.Valid, InStage, Consistent, Pass;
    RunKeeps(backend, inputs);
    var sent := Run(backend, inputs).sent;
    StageNames(Run(backend, inputs).session, Scan(Fresh, sent));
    var kept := sent[..Kept(backend, inputs, ending)];
    ScanPrefix(Fresh, sent, |kept|);
    assert sent[..|sent|] == sent;
    StageTells(kept);
    forall i | 0 <= i < |kept|
      ensures !kept[i].CloseSent?
    {
      NothingFollowsTheEnd(kept, i);
    }
  }

  lemma StageNames(s: Session, stage: Stage)
    requires InStage(s, stage)
    ensures stage != Bad && stage != Speaking
  {
  }

  /** The input on which the loop stopped. */
  function EndedBy(backend: Backend, inputs: seq<Input>): Option<Input>
    requires backend.Valid()
  {
    if |inputs| == 0 then None
    else
      var init := inputs[..|inputs| - 1];
      if Run(backend, init).session.exit != Running then EndedBy(backend, init)
      else if Run(backend, inputs).session.exit != Running then Some(inputs[|inputs| - 1])
      else None
  }

  /** The documented close status of an error code. */
  function StatusOfCode(code: string): nat {
    if code == "overloaded" then 1013
    else if code == "deadline_exceeded" then 1008
    else if code == "engine_error" then 1011
    else 1002
  }

  predicate IsBrokenReceive(input: Option<Input>) {
    input.Some? && input.value.Receive? && input.value.message == Broken
  }

  /** A failing turn sends one `error` event whose code decides the close status, or the socket itself broke. */
  ghost predicate Reports(r: Reaction, broken: bool) {
    && (r.session.exit == Failed && !broken ==>
          |r.sent| == 1 && r.sent[0].ErrorEvent? && CloseStatus(r.session) == StatusOfCode(r.sent[0].code))
    && (r.session.exit == Failed && broken ==> r.sent == [] && CloseStatus(r.session) == 1002)
    && (r.session.exit != Failed ==> forall i :: 0 <= i < |r.sent| ==> !r.sent[i].ErrorEvent?)
  }

  lemma FailReports(s: Session, code: string)
    requires s.failure.None? && StatusOfCode(code) == 1002
    ensures Reports(Fail(s, code), false)
  {
  }

  lemma FailBackendReports(s: Session, error: VoiceError)
    ensures Reports(FailBackend(s, error), false)
  {
    SpecialCodes();
  }

  /** What any failing answer reports. */
  lemma AnyFailReports(s: Session, code: string, error: VoiceError)
    requires s.failure.None? && code in OWN_CODES
    ensures Reports(Fail(s, code), false) && Reports(FailBackend(s, error), false)
  {
    hide StatusOfCode, Fail, FailBackend, Reports;
    SpecialCodes();
    FailReports(s, code);
    FailBackendReports(s, error);
  }

  /** The codes the session makes up itself; all close with 1002. */
  const OWN_CODES: set<string> :=
    {"invalid_sequence", "invalid_json", "sample_rate_required", "sample_rate_not_allowed", "audio_frame_expected",
     "audio_declaration_required", "audio_frame_invalid", "stt_session_required"}

  lemma QuietReports(r: Reaction)
    requires r.session.exit != Failed && forall i :: 0 <= i < |r.sent| ==> !r.sent[i].ErrorEvent?
    ensures Reports(r, false)
  {
  }

  lemma StartReports(backend: Backend, s: Session, mode: Mode, rate: Option<nat>, fault: Option<VoiceError>)
    requires backend.Valid() && Usable(s) && s.failure.None? && s.exit == Running
    ensures Reports(HandleEvent(backend, s, SessionStart(mode, rate), fault), false)
  {
    hide T.Setup.Valid, Backend.Start, Backend.Valid, StatusOfCode, ErrorCode, Fail, FailBackend, Reports;
    var started := s.(mode := Some(mode));
    var error := if rate.Some? then backend.Start(rate.value, fault) else Failure(Engine);
    AnyFailReports(s, "invalid_sequence", Engine);
    AnyFailReports(started, "sample_rate_required", if error.Failure? then error.error else Engine);
    AnyFailReports(started, "sample_rate_not_allowed", Engine);
    if s.mode.None? && ((mode == Tts && rate.None?) || (mode == Stt && rate.Some? && error.Success?)) {
      QuietReports(HandleEvent(backend, s, SessionStart(mode, rate), fault));
    }
  }

  lemma HandleReports(backend: Backend, s: Session, event: ClientEvent, fault: Option<VoiceError>)
    requires backend.Valid() && Usable(s) && s.failure.None? && s.exit == Running
    ensures Reports(HandleEvent(backend, s, event, fault), false)
  {
    hide Finish, T.Setup.Valid, Backend.Start, Backend.Valid, StatusOfCode, ErrorCode, Fail, FailBackend, Reports;
    var r := HandleEvent(backend, s, event, fault);
    AnyFailReports(s, "invalid_sequence", Engine);
    match event {
      case SessionStart(mode, rate) => StartReports(backend, s, mode, rate, fault);
      case AudioCommit =>
        if s.mode == Some(Stt) && !s.completed && s.transcriber.Some? {
          match Finish(s.transcriber.value, fault) {
            case Failure(e) => AnyFailReports(s.(transcriber := None), "invalid_sequence", e);
            case Success(_) => QuietReports(r);
          }
        }
      case _ =>
        if r != Fail(s, "invalid_sequence") {
          QuietReports(r);
        }
    }
  }

  lemma ListenReports(backend: Backend, s: Session, message: Message, fault: Option<VoiceError>)
    requires backend.Valid() && Usable(s) && s.failure.None? && s.exit == Running
    ensures Reports(Listen(backend, s, message, fault), message == Broken)
  {
    hide Push, HandleEvent, T.Setup.Valid, Backend.Valid, StatusOfCode, ErrorCode, Fail, FailBackend, Reports, Updates;
    var r := Listen(backend, s, message, fault);
    match message {
      case Text(event) =>
        AnyFailReports(s, "audio_frame_expected", Engine);
        AnyFailReports(s, "invalid_json", Engine);
        if event.Some? {
          HandleReports(backend, s, event.value, fault);
        }
      case Binary(payload) =>
        var taken := s.(pending := None);
        AnyFailReports(s, "audio_declaration_required", Engine);
        AnyFailReports(taken, "audio_frame_invalid", Engine);
        AnyFailReports(taken, "stt_session_required", Engine);
        if s.transcriber.Some? {
          match Push(s.transcriber.value, payload, fault) {
            case Failure(e) => AnyFailReports(taken, "audio_frame_invalid", e);
            case Success(updates) =>
              if r.sent == Updates(updates) && r.session.exit == Running {
                QuietReports(r);
              }
          }
        }
      case Broken => BrokenReports(s);
      case _ => QuietReports(r);
    }
  }

  lemma BrokenReports(s: Session)
    requires s.failure.None?
    ensures Reports(Reaction(s.(exit := Failed), []), true)
  {
  }

  lemma FailingTurn(backend: Backend, s: Session, input: Input)
    requires backend.Valid() && Usable(s) && Consistent(s) && s.exit == Running
    ensures Reports(React(backend, s, input), IsBrokenReceive(Some(input)))
  {
    hide Listen, T.Setup.Valid, Backend.Valid, SpeechChunks, Usable;
    SpecialCodes();
    match input {
      case Receive(message, fault) =>
        if !s.speaking {
          ListenReports(backend, s, message, fault);
        }
      case WorkerDone(_) =>
    }
  }

  lemma SpecialCodes()
    ensures forall e: VoiceError ::
              StatusOfCode(ErrorCode(e)) == CloseStatus(OPENED.(exit := Failed, failure := Some(e)))
    ensures forall code :: code in OWN_CODES ==> StatusOfCode(code) == 1002
    ensures "invalid_sequence" in OWN_CODES && "invalid_json" in OWN_CODES
  {
    assert |"overloaded"| == 10 && |"deadline_exceeded"| == 17 && |"engine_error"| == 12;
    assert "invalid_json"[0] != "engine_error"[0];
  }

  /**
   * A connection that fails tells the client why, with a code that determines the close status, unless and only
   * unless the failure was the socket's own.
   */
  lemma {:induction false} FailureIsReported(backend: Backend, inputs: seq<Input>)
    requires backend.Valid()
    ensures var r := Run(backend, inputs);
            r.session.exit == Failed ==>
              && (!IsBrokenReceive(EndedBy(backend, inputs)) <==> |r.sent| > 0 && r.sent[|r.sent| - 1].ErrorEvent?)
              && CloseStatus(r.session) ==
                   if IsBrokenReceive(EndedBy(backend, inputs)) then 1002 else StatusOfCode(r.sent[|r.sent| - 1].code)
    ensures Run(backend, inputs).session.exit != Failed ==>
              forall i :: 0 <= i < |Run(backend, inputs).sent| ==> !Run(backend, inputs).sent[i].ErrorEvent?
  {
    hide React, CloseStatus, StatusOfCode, Backend.Valid, Consistent, InStage, T.Setup.Valid;
    if |inputs| == 0 {
    } else {
      var init, last := inputs[..|inputs| - 1], inputs[|inputs| - 1];
      assert init + [last] == inputs;
      FailureIsReported(backend, init);
      RunKeeps(backend, init);
      RunSnoc(backend, init, last);
      if Run(backend, init).session.exit == Running {
        FailingTurn(backend, Run(backend, init).session, last);
      } else {
        StoppedStays(backend, Run(backend, init).session, last);
        assert Run(backend, init).sent + [] == Run(backend, init).sent;
      }
    }
  }

  /** The socket itself broke: in a receive, in a send of the loop, or when the deadline was to be reported. */
  predicate SocketBroke(backend: Backend, inputs: seq<Input>, ending: Ending, fails: nat -> bool)
    requires backend.Valid()
  {
    match ending
    case LoopEnded => IsBrokenReceive(EndedBy(backend, inputs))
    case DeadlineCut(cut) => fails(cut)
    case SendBroke(_) => true
  }

  ghost predicate ReportsError(o: seq<Sent>) {
    exists i :: 0 <= i < |o| && o[i].ErrorEvent?
  }

  /**
   * The client of a connection that did not end normally gets an `error` event, with the code of the close status,
   * if and only if the socket itself did not break. The client of one that ended normally gets none.
   */
  lemma ConnectionReports(backend: Backend, inputs: seq<Input>, ending: Ending, fails: nat -> bool)
    requires backend.Valid() && PossibleEnding(backend, inputs, ending, fails)
    ensures Status(backend, inputs, ending) == 1000 <==>
              ending.LoopEnded? && Run(backend, inputs).session.exit != Failed
    ensures ReportsError(Observed(backend, inputs, ending, fails)) <==>
              Status(backend, inputs, ending) != 1000 && !SocketBroke(backend, inputs, ending, fails)
    ensures forall e :: e in Observed(backend, inputs, ending, fails) && e.ErrorEvent? ==>
              StatusOfCode(e.code) == Status(backend, inputs, ending)
  {
    hide Run, Backend.Valid, LastWords, StatusOfCode, EndedBy, CloseStatus, PossibleEnding, Pass, IsBrokenReceive;
    SaidReports(backend, inputs, ending, fails);
    LastWordsAre(backend, inputs, ending, fails);
    DeadlineCode();
    var kept := Run(backend, inputs).sent[..Kept(backend, inputs, ending)];
    var last := LastWords(backend, inputs, ending, fails);
    assert Observed(backend, inputs, ending, fails) == kept + last;
    ReportsAppend(kept, last);
    if ending.DeadlineCut? && !fails(ending.cut) {
      assert last[0].ErrorEvent?;
    }
  }

  lemma ReportsAppend(a: seq<Sent>, b: seq<Sent>)
    ensures ReportsError(a + b) <==> ReportsError(a) || ReportsError(b)
  {
    if i :| 0 <= i < |a| && a[i].ErrorEvent? {
      assert (a + b)[i].ErrorEvent?;
    }
    if i :| 0 <= i < |b| && b[i].ErrorEvent? {
      assert (a + b)[|a| + i].ErrorEvent?;
    }
  }

  /** The part of this that concerns the loop. */
  lemma SaidReports(backend: Backend, inputs: seq<Input>, ending: Ending, fails: nat -> bool)
    requires backend.Valid() && PossibleEnding(backend, inputs, ending, fails)
    ensures Kept(backend, inputs, ending) <= |Run(backend, inputs).sent|
    ensures var said := Run(backend, inputs).sent[..Kept(backend, inputs, ending)];
            && (ReportsError(said) <==>
                  && ending.LoopEnded?
                  && Run(backend, inputs).session.exit == Failed
                  && !IsBrokenReceive(EndedBy(backend, inputs)))
            && (forall e :: e in said && e.ErrorEvent? ==> StatusOfCode(e.code) == Status(backend, inputs, ending))
    ensures Status(backend, inputs, ending) == 1000 <==>
              ending.LoopEnded? && Run(backend, inputs).session.exit != Failed
  {
    hide Run, Backend.Valid, StatusOfCode, EndedBy, CloseStatus, Pass, IsBrokenReceive;
    FailureIsReported(backend, inputs);
    ErrorsAreLast(backend, inputs);
    FailedStatus(Run(backend, inputs).session);
    var sent := Run(backend, inputs).sent;
    var said := sent[..Kept(backend, inputs, ending)];
    if ending.LoopEnded? {
      assert said == sent;
      if |sent| > 0 && sent[|sent| - 1].ErrorEvent? {
        assert ReportsError(said);
      }
    }
  }

  lemma FailedStatus(s: Session)
    ensures CloseStatus(s) == 1000 <==> s.exit != Failed
  {
  }

  /** A session cut by its deadline says so, and closes with 1008, as far as its sends succeed. */
  lemma DeadlineIsReported(backend: Backend, inputs: seq<Input>, cut: nat, fails: nat -> bool)
    requires backend.Valid() && PossibleEnding(backend, inputs, DeadlineCut(cut), fails)
    requires !fails(cut) && !fails(cut + 1)
    ensures Observed(backend, inputs, DeadlineCut(cut), fails) ==
              Run(backend, inputs).sent[..cut] + [ErrorEvent("deadline_exceeded"), CloseSent(1008)]
  {
    hide Run, LastWords;
    LastWordsAre(backend, inputs, DeadlineCut(cut), fails);
  }

  lemma DeadlineCode()
    ensures StatusOfCode("deadline_exceeded") == 1008
  {
    assert |"overloaded"| == 10 && |"deadline_exceeded"| == 17;
  }

  /** Only the last event of a run can be an `error` event. */
  lemma ErrorsAreLast(backend: Backend, inputs: seq<Input>)
    requires backend.Valid()
    ensures var sent := Run(backend, inputs).sent;
            forall i :: 0 <= i < |sent| - 1 ==> !sent[i].ErrorEvent?
  {
    hide Run, Scan, Backend.Valid, InStage, Consistent;
    RunKeeps(backend, inputs);
    StageNames(Run(backend, inputs).session, Scan(Fresh, Run(backend, inputs).sent));
    var sent := Run(backend, inputs).sent;
    forall i | 0 <= i < |sent| - 1
      ensures !sent[i].ErrorEvent?
    {
      NothingFollowsTheEnd(sent, i);
    }
  }

  /** The shortest run that fails without an `error` event: the socket breaks at once. */
  lemma BrokenSocketIsSilent(backend: Backend)
    requires backend.Valid()
    ensures var r := Run(backend, [Receive(Broken, None)]);
            r.session.exit == Failed && r.sent == [] && CloseStatus(r.session) == 1002
  {
    hide Backend.Valid, T.Setup.Valid;
    RunNothing(backend);
    RunSnoc(backend, [], Receive(Broken, None));
    assert [] + [Receive(Broken, None)] == [Receive(Broken, None)];
  }

  lemma StoppedStays(backend: Backend, s: Session, input: Input)
    requires backend.Valid() && Usable(s) && s.exit != Running
    ensures React(backend, s, input) == Reaction(s, [])
  {
  }

  // ---- Transcripts

  function Transcripts(sent: seq<Sent>): seq<T.Transcript> {
    if |sent| == 0 then []
    else
      Transcripts(sent[..|sent| - 1])
      + (if sent[|sent| - 1].Update? then [sent[|sent| - 1].transcript] else [])
  }

  lemma {:induction false} TranscriptsAppend(a: seq<Sent>, b: seq<Sent>)
    ensures Transcripts(a + b) == Transcripts(a) + Transcripts(b)
  {
    if |b| == 0 {
      assert a + b == a;
    } else {
      assert (a + b)[..|a + b| - 1] == a + b[..|b| - 1];
      TranscriptsAppend(a, b[..|b| - 1]);
    }
  }

  lemma {:induction false} TranscriptsOfUpdates(updates: seq<T.Transcript>)
    ensures Transcripts(Updates(updates)) == updates
  {
    if |updates| > 0 {
      TranscriptsOfUpdates(updates[..|updates| - 1]);
      assert Updates(updates)[..|updates| - 1] == Updates(updates[..|updates| - 1]);
    }
  }

  lemma {:induction false} NoTranscripts(sent: seq<Sent>)
    requires forall i :: 0 <= i < |sent| ==> !sent[i].Update?
    ensures Transcripts(sent) == []
  {
    if |sent| > 0 {
      NoTranscripts(sent[..|sent| - 1]);
    }
  }

  /** The `session_start` that set the mode. */
  function StartOf(backend: Backend, inputs: seq<Input>): Option<ClientEvent>
    requires backend.Valid()
  {
    if |inputs| == 0 then None
    else
      var init := inputs[..|inputs| - 1];
      var earlier := StartOf(backend, init);
      if earlier.Some? then earlier
      else Starts(Run(backend, init).session, Run(backend, inputs).session, inputs[|inputs| - 1])
  }

  function Starts(before: Session, after: Session, input: Input): Option<ClientEvent> {
    if before.mode.None? && after.mode.Some? && input.Receive? && input.message.Text? then input.message.event else None
  }

  /** The audio taken in by one turn: the binary payload, if the session goes on after it. */
  function TakenIn(before: Session, after: Session, input: Input): seq<Byte> {
    if before.exit == Running && after.exit == Running && input.Receive? && input.message.Binary?
    then input.message.payload else []
  }

  /** The audio a run takes in. */
  function AcceptedAudio(backend: Backend, inputs: seq<Input>): seq<Byte>
    requires backend.Valid()
  {
    if |inputs| == 0 then []
    else
      var init := inputs[..|inputs| - 1];
      AcceptedAudio(backend, init)
      + TakenIn(Run(backend, init).session, Run(backend, inputs).session, inputs[|inputs| - 1])
  }

  /** The recognition session a start asks for. */
  function SetupOf(backend: Backend, start: Option<ClientEvent>): (setup: Option<T.Setup>)
    requires backend.Valid()
    ensures setup.Some? ==> setup.value.Valid()
  {
    match start
    case Some(SessionStart(Stt, Some(rate))) => if SupportedRate(rate) then Some(backend.SetupFor(rate)) else None
    case _ => None
  }

  /** What a client should have been told after this audio, given whether the session was completed. */
  function Expected(setup: Option<T.Setup>, audio: seq<Byte>, completed: bool): Result<seq<T.Transcript>, T.SttError>
    requires setup.Some? ==> setup.value.Valid()
  {
    if setup.None? then Success([])
    else if completed then setup.value.Finished(Success(setup.value.Updates(audio)), audio)
    else Success(setup.value.Updates(audio))
  }

  /** The transcripts sent and the audio pushed are exactly what the accepted audio calls for. */
  ghost predicate Told(backend: Backend, start: Option<ClientEvent>, s: Session, told: seq<T.Transcript>, audio: seq<Byte>)
    requires backend.Valid()
  {
    var setup := SetupOf(backend, start);
    && (start.None? <==> s.mode.None?)
    && (start.Some? ==> start.value.SessionStart? && s.mode == Some(start.value.mode))
    && (s.transcriber.Some? ==> setup.Some? && s.transcriber.value == Transcriber(setup.value, audio))
    && (setup.None? ==> audio == [])
    && Expected(setup, audio, s.completed) == Success(told)
  }

  lemma NothingToldYet(backend: Backend, start: Option<ClientEvent>)
    requires backend.Valid()
    ensures Expected(SetupOf(backend, start), [], false) == Success([])
  {
    hide T.Setup.Updates, T.Setup.Valid;
    var setup := SetupOf(backend, start);
    if setup.Some? {
      setup.value.NothingTranscribed();
      assert setup.value.Updates([]) == [];
    }
  }

  lemma HandleTells(backend: Backend, start: Option<ClientEvent>, s: Session, event: ClientEvent, fault: Option<VoiceError>,
                    told: seq<T.Transcript>, audio: seq<Byte>)
    requires backend.Valid() && Usable(s) && Consistent(s) && s.exit == Running && !s.speaking && s.pending.None?
    requires Told(backend, start, s, told, audio)
    ensures var r := HandleEvent(backend, s, event, fault);
            var begun := Starts(s, r.session, Receive(Text(Some(event)), fault));
            Told(backend, if start.Some? then start else begun, r.session, told + Transcripts(r.sent), audio)
  {
    hide T.Setup.Valid, T.Setup.Updates, T.Setup.FinishOutcome, Backend.Valid, MapSttError, SupportedRate;
    var r := HandleEvent(backend, s, event, fault);
    assert told + [] == told;
    NothingToldYet(backend, Some(event));
    if event.AudioCommit? && s.transcriber.Some? && Finish(s.transcriber.value, fault).Success? {
      var last := Finish(s.transcriber.value, fault).value;
      FinishIsFinal(s.transcriber.value, fault);
      CommitTranscripts(last);
    } else {
      NoTranscripts(r.sent);
    }
  }

  lemma CommitTranscripts(last: T.Transcript)
    ensures Transcripts([Update(last), SessionCompleted]) == [last]
  {
    var sent := [Update(last), SessionCompleted];
    assert sent[..1] == [Update(last)] && sent[..1][..0] == [];
    assert Transcripts(sent) == Transcripts(sent[..1]) + [];
    assert Transcripts(sent[..1]) == Transcripts(sent[..1][..0]) + [last];
    assert Transcripts(sent[..1][..0]) == [];
  }

  lemma ListenTells(backend: Backend, start: Option<ClientEvent>, s: Session, message: Message, fault: Option<VoiceError>,
                    told: seq<T.Transcript>, audio: seq<Byte>)
    requires backend.Valid() && Usable(s) && Consistent(s) && s.exit == Running && !s.speaking
    requires Told(backend, start, s, told, audio)
    ensures var input := Receive(message, fault);
            var r := Listen(backend, s, message, fault);
            var begun := Starts(s, r.session, input);
            Told(backend, if start.Some? then start else begun, r.session, told + Transcripts(r.sent),
                 audio + TakenIn(s, r.session, input))
  {
    hide T.Setup.Valid, T.Setup.Updates, T.Setup.FinishOutcome, Backend.Valid, HandleEvent, Push, SupportedRate, Updates;
    var r := Listen(backend, s, message, fault);
    assert told + [] == told;
    assert audio + [] == audio;
    if message.Text? && s.pending.None? && message.event.Some? {
      HandleTells(backend, start, s, message.event.value, fault, told, audio);
    } else if message.Binary? && s.transcriber.Some? && Push(s.transcriber.value, message.payload, fault).Success? {
      PushExtends(s.transcriber.value, message.payload, fault);
      TranscriptsOfUpdates(Push(s.transcriber.value, message.payload, fault).value);
      if r.session.exit != Running {
        NoTranscripts(r.sent);
      }
    } else {
      NoTranscripts(r.sent);
    }
  }

  lemma TurnTells(backend: Backend, start: Option<ClientEvent>, s: Session, input: Input,
                  told: seq<T.Transcript>, audio: seq<Byte>)
    requires backend.Valid() && Usable(s) && Consistent(s)
    requires Told(backend, start, s, told, audio)
    ensures var r := React(backend, s, input);
            var begun := Starts(s, r.session, input);
            Told(backend, if start.Some? then start else begun, r.session, told + Transcripts(r.sent),
                 audio + TakenIn(s, r.session, input))
  {
    hide T.Setup.Valid, T.Setup.Updates, T.Setup.FinishOutcome, Backend.Valid, Listen, SupportedRate, Chunks;
    var r := React(backend, s, input);
    assert told + [] == told;
    assert audio + [] == audio;
    if s.exit == Running && input.Receive? && !s.speaking {
      ListenTells(backend, start, s, input.message, input.fault, told, audio);
    } else {
      NoTranscripts(r.sent);
    }
  }

  /**
   * Every run, whatever is sent, refused or cut short: the transcripts sent so far are exactly the updates of the
   * audio accepted so far, followed by its final transcript once the session is completed.
   */
  lemma {:induction false} RunTells(backend: Backend, inputs: seq<Input>)
    requires backend.Valid()
    ensures var r := Run(backend, inputs);
            Told(backend, StartOf(backend, inputs), r.session, Transcripts(r.sent), AcceptedAudio(backend, inputs))
  {
    hide React, Told, Backend.Valid, T.Setup.Valid, Consistent, Usable, InStage, Starts, TakenIn;
    if |inputs| == 0 {
      ToldNothing(backend);
      assert inputs == [];
    } else {
      var init, last := inputs[..|inputs| - 1], inputs[|inputs| - 1];
      assert init + [last] == inputs;
      var before := Run(backend, init);
      RunTells(backend, init);
      RunKeeps(backend, init);
      RunSnoc(backend, init, last);
      TurnTells(backend, StartOf(backend, init), before.session, last, Transcripts(before.sent), AcceptedAudio(backend, init));
      TranscriptsAppend(before.sent, React(backend, before.session, last).sent);
    }
  }

  lemma ToldNothing(backend: Backend)
    requires backend.Valid()
    ensures Told(backend, None, OPENED, [], [])
  {
  }
}
