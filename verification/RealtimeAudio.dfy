/** The WebSocket audio framing: which guards can fire, and what is pushed into the recognizer. */
module RealtimeAudio {
  import opened Prelude
  import opened VoiceBackend
  import opened Realtime
  import R = RealtimeRuns
  import T = Transcription

  const UNREACHABLE: string := "stt_session_required"

  /** No `stt_session_required` among these. */
  predicate NeverSays(sent: seq<Sent>) {
    forall i :: 0 <= i < |sent| ==> sent[i] != ErrorEvent(UNREACHABLE)
  }

  lemma OtherCodes()
    ensures "invalid_sequence" != UNREACHABLE && "invalid_json" != UNREACHABLE
    ensures "sample_rate_required" != UNREACHABLE && "sample_rate_not_allowed" != UNREACHABLE
    ensures "audio_frame_expected" != UNREACHABLE && "audio_declaration_required" != UNREACHABLE
    ensures "audio_frame_invalid" != UNREACHABLE
    ensures forall e: VoiceError :: ErrorCode(e) != UNREACHABLE
  {
    assert "sample_rate_required"[1] != UNREACHABLE[1];
    assert "audio_frame_expected"[0] != UNREACHABLE[0];
    assert |UNREACHABLE| == 20;
  }

  lemma TurnNeverSays(backend: Backend, s: Session, input: Input)
    requires backend.Valid() && Usable(s) && Consistent(s)
    ensures NeverSays(React(backend, s, input).sent)
  {
    hide Push, Finish, T.Setup.Valid, Backend.Start, Backend.Valid, ErrorCode, SpeechChunks, Updates, Usable;
    OtherCodes();
  }

  /**
   * The guards behind the state machine never fire: a running session that expects a frame has a transcriber and a
   * declared size within the message limit, one that may commit has a transcriber, and `stt_session_required` is
   * never sent.
   */
  lemma {:induction false} GuardsNeverFire(backend: Backend, inputs: seq<Input>)
    requires backend.Valid()
    ensures var s := Run(backend, inputs).session;
            s.exit == Running ==>
              && (s.pending.Some? ==> s.transcriber.Some? && s.pending.value <= MAX_WS_MESSAGE_BYTES)
              && (s.mode == Some(Stt) && !s.completed ==> s.transcriber.Some?)
    ensures NeverSays(Run(backend, inputs).sent)
  {
    hide React, T.Setup.Valid, Backend.Valid, InStage;
    RunKeeps(backend, inputs);
    if |inputs| > 0 {
      var init, last := inputs[..|inputs| - 1], inputs[|inputs| - 1];
      assert init + [last] == inputs;
      GuardsNeverFire(backend, init);
      RunKeeps(backend, init);
      RunSnoc(backend, init, last);
      TurnNeverSays(backend, Run(backend, init).session, last);
    }
  }

  // ---- Declared and pushed frames

  /** The declaration accepted by one turn. */
  function DeclaredIn(before: Session, after: Session, input: Input): seq<nat> {
    if before.exit == Running && after.exit == Running && input.Receive? && input.message.Text?
       && before.pending.None? && after.pending.Some?
    then [after.pending.value] else []
  }

  /** The frame pushed by one turn. */
  function PushedIn(before: Session, after: Session, input: Input): seq<seq<Byte>> {
    if before.exit == Running && after.exit == Running && input.Receive? && input.message.Binary?
    then [input.message.payload] else []
  }

  function Declared(backend: Backend, inputs: seq<Input>): seq<nat>
    requires backend.Valid()
  {
    if |inputs| == 0 then []
    else
      var init := inputs[..|inputs| - 1];
      Declared(backend, init) + DeclaredIn(Run(backend, init).session, Run(backend, inputs).session, inputs[|inputs| - 1])
  }

  function Pushed(backend: Backend, inputs: seq<Input>): seq<seq<Byte>>
    requires backend.Valid()
  {
    if |inputs| == 0 then []
    else
      var init := inputs[..|inputs| - 1];
      Pushed(backend, init) + PushedIn(Run(backend, init).session, Run(backend, inputs).session, inputs[|inputs| - 1])
  }

  /** Every pushed frame has the size declared for it; at most one declaration is still waiting for its frame. */
  ghost predicate Paired(s: Session, declared: seq<nat>, pushed: seq<seq<Byte>>) {
    && |pushed| <= |declared| <= |pushed| + 1
    && (forall i :: 0 <= i < |pushed| ==> |pushed[i]| == declared[i])
    && (forall i :: 0 <= i < |declared| ==> 0 < declared[i] <= MAX_WS_MESSAGE_BYTES)
    && (s.exit == Running ==> if s.pending.Some? then |declared| == |pushed| + 1 && s.pending.value == declared[|pushed|]
                              else |declared| == |pushed|)
  }

  lemma TurnPairs(backend: Backend, s: Session, input: Input, declared: seq<nat>, pushed: seq<seq<Byte>>)
    requires backend.Valid() && Usable(s) && Consistent(s) && Paired(s, declared, pushed)
    ensures var after := React(backend, s, input).session;
            Paired(after, declared + DeclaredIn(s, after, input), pushed + PushedIn(s, after, input))
  {
    hide Push, Finish, T.Setup.Valid, Backend.Start, Backend.Valid, ErrorCode, SpeechChunks, Updates, Usable;
    assert declared + [] == declared && pushed + [] == pushed;
  }

  /**
   * What is pushed into the recognizer over a whole run is exactly the declared frames, in order, and their
   * concatenation is the accepted audio.
   */
  lemma {:induction false} PushedAsDeclared(backend: Backend, inputs: seq<Input>)
    requires backend.Valid()
    ensures Paired(Run(backend, inputs).session, Declared(backend, inputs), Pushed(backend, inputs))
    ensures Flatten(Pushed(backend, inputs)) == R.AcceptedAudio(backend, inputs)
  {
    hide React, T.Setup.Valid, Backend.Valid, InStage, Consistent, DeclaredIn, Paired, Usable;
    if |inputs| == 0 {
      NothingPaired();
    } else {
      var init, last := inputs[..|inputs| - 1], inputs[|inputs| - 1];
      assert init + [last] == inputs;
      PushedAsDeclared(backend, init);
      RunKeeps(backend, init);
      RunSnoc(backend, init, last);
      var s := Run(backend, init).session;
      TurnPairs(backend, s, last, Declared(backend, init), Pushed(backend, init));
      FlattenSnoc(Pushed(backend, init), if last.Receive? && last.message.Binary? then last.message.payload else []);
      assert Pushed(backend, init) + [] == Pushed(backend, init);
    }
  }

  lemma NothingPaired()
    ensures Paired(OPENED, [], []) && Flatten<Byte>([]) == []
  {
  }
}
