/** Both realtime transports tell a client the same thing about the same audio. */
module Agreement {
  import opened Prelude
  import opened Pcm
  import opened VoiceBackend
  import T = Transcription
  import W = Realtime
  import R = RealtimeRuns
  import G = Grpc

  /**
   * Whatever else a WebSocket client and a gRPC client sent, and however their messages were framed: if both opened
   * at the same rate, had the same audio accepted, and both or neither got to the end, they were told the same
   * transcripts in the same order.
   */
  lemma SameAudioSameTranscripts(backend: Backend, inputs: seq<W.Input>, arrivals: seq<G.Arrival>, rate: nat)
    requires backend.Valid()
    requires R.StartOf(backend, inputs) == Some(W.SessionStart(W.Stt, Some(rate)))
    requires G.RateOf(backend, arrivals) == Some(rate)
    requires R.AcceptedAudio(backend, inputs) == G.AcceptedAudio(backend, arrivals)
    requires var call := G.Run(backend, arrivals);
             W.Run(backend, inputs).session.completed == G.Finished(call.call, call.items)
    ensures R.Transcripts(W.Run(backend, inputs).sent) == G.Transcripts(G.Run(backend, arrivals).items)
  {
    hide W.Run, G.Run, R.StartOf, G.RateOf, R.AcceptedAudio, G.AcceptedAudio, T.Setup.Updates, T.Setup.FinishOutcome,
         T.Setup.Valid, Backend.Valid, G.Finished, R.Transcripts, G.Transcripts, SupportedRate;
    R.RunTells(backend, inputs);
    G.RunTells(backend, arrivals);
  }

  /** Frames of a size both transports accept. */
  predicate LegalFrames(frames: seq<seq<Byte>>) {
    forall i :: 0 <= i < |frames| ==> 0 < |frames[i]| <= W.MAX_WS_MESSAGE_BYTES == G.MAX_STREAM_AUDIO_BYTES
  }

  // ---- A WebSocket client that streams a recording

  function Say(event: W.ClientEvent): W.Input {
    W.Receive(W.Text(Some(event)), None)
  }

  function Frame(bytes: seq<Byte>): W.Input {
    W.Receive(W.Binary(bytes), None)
  }

  function SocketAudio(frames: seq<seq<Byte>>): seq<W.Input> {
    if |frames| == 0 then []
    else
      var last := frames[|frames| - 1];
      SocketAudio(frames[..|frames| - 1]) + [Say(W.AudioAppend(|last|)), Frame(last)]
  }

  function SocketScript(rate: nat, frames: seq<seq<Byte>>): seq<W.Input> {
    [Say(W.SessionStart(W.Stt, Some(rate)))] + SocketAudio(frames) + [Say(W.AudioCommit)]
  }

  /** The session while it takes in audio. */
  function Streaming(t: Transcriber): W.Session {
    W.OPENED.(mode := Some(W.Stt), transcriber := Some(t))
  }

  /** The connection failed, and its last words name the error. */
  predicate SocketFailed(r: W.Reaction, error: T.SttError) {
    && r.session.exit == W.Failed && !r.session.completed
    && |r.sent| > 0
    && r.sent[|r.sent| - 1] == W.ErrorEvent(W.ErrorCode(MapSttError(error)))
  }

  /** One declared frame on an open session is one push. */
  lemma SocketPush(backend: Backend, t: Transcriber, bytes: seq<Byte>)
    requires backend.Valid() && t.setup.Valid() && 0 < |bytes| <= W.MAX_WS_MESSAGE_BYTES
    ensures W.React(backend, Streaming(t), Say(W.AudioAppend(|bytes|)))
         == W.Reaction(Streaming(t).(pending := Some(|bytes|)), [])
    ensures var r := W.React(backend, Streaming(t).(pending := Some(|bytes|)), Frame(bytes));
            match t.setup.PushOutcome(t.pushed, bytes)
            case Success(updates) =>
              r.session == Streaming(t.(pushed := t.pushed + bytes)) && R.Transcripts(r.sent) == updates
            case Failure(e) => SocketFailed(r, e)
  {
    hide T.Setup.PushOutcome, T.Setup.Valid, Backend.Valid, R.Transcripts, W.Updates;
    var outcome := t.setup.PushOutcome(t.pushed, bytes);
    if outcome.Success? {
      R.TranscriptsOfUpdates(outcome.value);
    }
  }

  lemma SocketOpens(backend: Backend, rate: nat)
    requires backend.Valid() && SupportedRate(rate)
    ensures var r := W.Run(backend, [Say(W.SessionStart(W.Stt, Some(rate)))]);
            && r == W.Reaction(Streaming(Transcriber(backend.SetupFor(rate), [])), [W.SessionReady])
            && R.Transcripts(r.sent) == []
  {
    var start := Say(W.SessionStart(W.Stt, Some(rate)));
    W.RunSnoc(backend, [], start);
    W.RunNothing(backend);
    assert [] + [start] == [start];
    R.NoTranscripts([W.SessionReady]);
  }

  /** A stopped session says nothing more. */
  lemma SocketStays(backend: Backend, inputs: seq<W.Input>, input: W.Input)
    requires backend.Valid() && W.Run(backend, inputs).session.exit != W.Running
    ensures W.Run(backend, inputs + [input]) == W.Run(backend, inputs)
  {
    hide W.Run, T.Setup.Valid, Backend.Valid;
    W.RunSnoc(backend, inputs, input);
    R.StoppedStays(backend, W.Run(backend, inputs).session, input);
    assert W.Run(backend, inputs).sent + [] == W.Run(backend, inputs).sent;
  }

  /** One turn after the inputs so far. */
  lemma SocketTurn(backend: Backend, inputs: seq<W.Input>, input: W.Input)
    requires backend.Valid()
    ensures var before := W.Run(backend, inputs);
            var now := W.React(backend, before.session, input);
            var after := W.Run(backend, inputs + [input]);
            && after.session == now.session
            && after.sent == before.sent + now.sent
            && R.Transcripts(after.sent) == R.Transcripts(before.sent) + R.Transcripts(now.sent)
            && (|now.sent| > 0 ==> |after.sent| > 0 && after.sent[|after.sent| - 1] == now.sent[|now.sent| - 1])
  {
    hide W.React, W.Run, T.Setup.Valid, Backend.Valid, R.Transcripts;
    W.RunSnoc(backend, inputs, input);
    R.TranscriptsAppend(W.Run(backend, inputs).sent, W.React(backend, W.Run(backend, inputs).session, input).sent);
  }

  /** The session after its audio: where a session that pushes the frames one by one is. */
  ghost predicate SocketTook(setup: T.Setup, frames: seq<seq<Byte>>, r: W.Reaction)
    requires setup.Valid()
  {
    match setup.PushAll([], frames)
    case Success(updates) =>
      r.session == Streaming(Transcriber(setup, Flatten(frames))) && R.Transcripts(r.sent) == updates
    case Failure(e) => SocketFailed(r, e)
  }

  lemma {:induction false} SocketTakes(backend: Backend, rate: nat, frames: seq<seq<Byte>>)
    requires backend.Valid() && SupportedRate(rate) && backend.SetupFor(rate).Valid() && LegalFrames(frames)
    ensures SocketTook(backend.SetupFor(rate), frames,
                       W.Run(backend, [Say(W.SessionStart(W.Stt, Some(rate)))] + SocketAudio(frames)))
  {
    hide W.Run, W.React, T.Setup.PushAll, Backend.Valid, T.Setup.Valid, R.Transcripts, SocketTook, Flatten;
    var start := [Say(W.SessionStart(W.Stt, Some(rate)))];
    if |frames| == 0 {
      assert frames == [] && start + SocketAudio(frames) == start;
      SocketTookNothing(backend, rate);
    } else {
      var init, last := frames[..|frames| - 1], frames[|frames| - 1];
      SocketTakes(backend, rate, init);
      SocketFrame(backend, backend.SetupFor(rate), start + SocketAudio(init), init, last);
      assert start + SocketAudio(frames)
          == start + SocketAudio(init) + [Say(W.AudioAppend(|last|))] + [Frame(last)];
      assert init + [last] == frames;
    }
  }

  lemma SocketTookNothing(backend: Backend, rate: nat)
    requires backend.Valid() && SupportedRate(rate) && backend.SetupFor(rate).Valid()
    ensures SocketTook(backend.SetupFor(rate), [], W.Run(backend, [Say(W.SessionStart(W.Stt, Some(rate)))]))
  {
    hide W.Run, T.Setup.PushAll, Backend.Valid, T.Setup.Valid, R.Transcripts;
    backend.SetupFor(rate).NoPushes([], []);
    SocketOpens(backend, rate);
  }

  lemma SocketFrame(backend: Backend, setup: T.Setup, inputs: seq<W.Input>, init: seq<seq<Byte>>, last: seq<Byte>)
    requires backend.Valid() && setup.Valid() && 0 < |last| <= W.MAX_WS_MESSAGE_BYTES
    requires SocketTook(setup, init, W.Run(backend, inputs))
    ensures SocketTook(setup, init + [last], W.Run(backend, inputs + [Say(W.AudioAppend(|last|))] + [Frame(last)]))
  {
    hide W.Run, W.React, T.Setup.PushAll, T.Setup.PushOutcome, Backend.Valid, T.Setup.Valid, R.Transcripts, Streaming,
         W.ErrorCode, MapSttError;
    var frames := init + [last];
    setup.LastPush([], frames);
    assert frames[..|init|] == init && [] + Flatten(init) == Flatten(init) && [] + Flatten(frames) == Flatten(frames);
    FlattenSnoc(init, last);
    var declared := inputs + [Say(W.AudioAppend(|last|))];
    if setup.PushAll([], init).Success? {
      SocketPush(backend, Transcriber(setup, Flatten(init)), last);
      SocketTurn(backend, inputs, Say(W.AudioAppend(|last|)));
      SocketTurn(backend, declared, Frame(last));
      NoSocketTranscripts();
      assert setup.PushAll([], init).value + [] == setup.PushAll([], init).value;
    } else {
      SocketStays(backend, inputs, Say(W.AudioAppend(|last|)));
      SocketStays(backend, declared, Frame(last));
    }
  }

  lemma NoSocketTranscripts()
    ensures R.Transcripts([]) == []
  {
  }

  lemma SocketCommit(backend: Backend, t: Transcriber)
    requires backend.Valid() && t.setup.Valid()
    ensures var r := W.React(backend, Streaming(t), Say(W.AudioCommit));
            match t.setup.FinishOutcome(t.pushed)
            case Success(last) => r.session.completed && r.session.exit == W.Running && R.Transcripts(r.sent) == [last]
            case Failure(e) => SocketFailed(r, e)
  {
    hide T.Setup.FinishOutcome, T.Setup.Valid, Backend.Valid, R.Transcripts;
    var outcome := t.setup.FinishOutcome(t.pushed);
    if outcome.Success? {
      R.CommitTranscripts(outcome.value);
    }
  }

  /** What a WebSocket client that streams a recording is told: the transcripts of that recording, or its error. */
  lemma SocketTranscribes(backend: Backend, rate: nat, frames: seq<seq<Byte>>)
    requires backend.Valid() && SupportedRate(rate) && backend.SetupFor(rate).Valid()
    requires LegalFrames(frames) && backend.maxChunkBytes >= W.MAX_WS_MESSAGE_BYTES
    ensures var r := W.Run(backend, SocketScript(rate, frames));
            match backend.SetupFor(rate).Transcribed(Flatten(frames))
            case Success(all) => r.session.completed && r.session.exit == W.Running && R.Transcripts(r.sent) == all
            case Failure(e) => SocketFailed(r, e)
  {
    hide W.Run, W.React, T.Setup.PushAll, T.Setup.FinishOutcome, T.Setup.Transcribed, Backend.Valid, T.Setup.Valid,
         R.Transcripts, Streaming, W.ErrorCode, MapSttError, SocketAudio;
    var setup := backend.SetupFor(rate);
    var inputs := [Say(W.SessionStart(W.Stt, Some(rate)))] + SocketAudio(frames);
    SocketTakes(backend, rate, frames);
    setup.RunStreamIsTranscribed(frames);
    if setup.PushAll([], frames).Success? {
      SocketCommit(backend, Transcriber(setup, Flatten(frames)));
      SocketTurn(backend, inputs, Say(W.AudioCommit));
    } else {
      SocketStays(backend, inputs, Say(W.AudioCommit));
    }
  }

  // ---- A gRPC client that streams a recording

  function Send(request: G.Request): G.Arrival {
    G.Message(request, None)
  }

  function CallAudio(frames: seq<seq<Byte>>): seq<G.Arrival> {
    if |frames| == 0 then [] else CallAudio(frames[..|frames| - 1]) + [Send(G.Audio(frames[|frames| - 1]))]
  }

  function CallScript(rate: nat, frames: seq<seq<Byte>>): seq<G.Arrival> {
    [Send(G.Config(rate))] + CallAudio(frames) + [Send(G.Commit(true))]
  }

  predicate CallFailed(r: G.Reaction, error: T.SttError) {
    && r.call.returned
    && |r.items| > 0
    && r.items[|r.items| - 1] == G.Status(G.StatusOf(MapSttError(error)))
  }

  function CallStreaming(t: Transcriber): G.Call {
    G.OPENED.(session := Some(t))
  }

  ghost predicate CallTook(setup: T.Setup, frames: seq<seq<Byte>>, r: G.Reaction)
    requires setup.Valid()
  {
    match setup.PushAll([], frames)
    case Success(updates) =>
      r.call == CallStreaming(Transcriber(setup, Flatten(frames))) && G.Transcripts(r.items) == updates
    case Failure(e) => CallFailed(r, e)
  }

  lemma CallPush(backend: Backend, t: Transcriber, bytes: seq<Byte>)
    requires backend.Valid() && t.setup.Valid() && 0 < |bytes| <= G.MAX_STREAM_AUDIO_BYTES
    ensures var r := G.React(backend, CallStreaming(t), Send(G.Audio(bytes)));
            match t.setup.PushOutcome(t.pushed, bytes)
            case Success(updates) =>
              r.call == CallStreaming(t.(pushed := t.pushed + bytes)) && G.Transcripts(r.items) == updates
            case Failure(e) => CallFailed(r, e)
  {
    hide T.Setup.PushOutcome, T.Setup.Valid, Backend.Valid, G.Transcripts, G.Events;
    var outcome := t.setup.PushOutcome(t.pushed, bytes);
    if outcome.Success? {
      G.TranscriptsOfEvents(outcome.value);
    }
  }

  lemma CallCommit(backend: Backend, t: Transcriber)
    requires backend.Valid() && t.setup.Valid()
    ensures var r := G.React(backend, CallStreaming(t), Send(G.Commit(true)));
            match t.setup.FinishOutcome(t.pushed)
            case Success(last) =>
              && r.call.committed && r.call.returned
              && G.Transcripts(r.items) == [last]
              && |r.items| == 1 && r.items[0].Event?
            case Failure(e) => CallFailed(r, e)
  {
    hide T.Setup.FinishOutcome, T.Setup.Valid, Backend.Valid, G.Transcripts;
    var outcome := t.setup.FinishOutcome(t.pushed);
    if outcome.Success? {
      G.TranscriptsOfOne(G.Event(outcome.value));
    }
  }

  lemma CallOpens(backend: Backend, rate: nat)
    requires backend.Valid() && SupportedRate(rate)
    ensures G.Run(backend, [Send(G.Config(rate))])
         == G.Reaction(CallStreaming(Transcriber(backend.SetupFor(rate), [])), [])
    ensures G.Transcripts([]) == []
  {
    G.RunSnoc(backend, [], Send(G.Config(rate)));
    G.RunNothing(backend);
    assert [] + [Send(G.Config(rate))] == [Send(G.Config(rate))];
  }

  lemma CallTurn(backend: Backend, arrivals: seq<G.Arrival>, arrival: G.Arrival)
    requires backend.Valid()
    ensures var before := G.Run(backend, arrivals);
            var now := G.React(backend, before.call, arrival);
            var after := G.Run(backend, arrivals + [arrival]);
            && after.call == now.call
            && after.items == before.items + now.items
            && G.Transcripts(after.items) == G.Transcripts(before.items) + G.Transcripts(now.items)
            && (|now.items| > 0 ==> |after.items| > 0 && after.items[|after.items| - 1] == now.items[|now.items| - 1])
            && (before.call.returned ==> after == before)
  {
    hide G.Run, T.Setup.Valid, Backend.Valid, G.Transcripts, G.Handle;
    G.RunSnoc(backend, arrivals, arrival);
    G.TranscriptsAppend(G.Run(backend, arrivals).items, G.React(backend, G.Run(backend, arrivals).call, arrival).items);
    assert G.Run(backend, arrivals).items + [] == G.Run(backend, arrivals).items;
  }

  lemma {:induction false} CallTakes(backend: Backend, rate: nat, frames: seq<seq<Byte>>)
    requires backend.Valid() && SupportedRate(rate) && backend.SetupFor(rate).Valid() && LegalFrames(frames)
    ensures CallTook(backend.SetupFor(rate), frames, G.Run(backend, [Send(G.Config(rate))] + CallAudio(frames)))
  {
    hide G.Run, G.React, T.Setup.PushAll, Backend.Valid, T.Setup.Valid, G.Transcripts, CallTook, Flatten;
    var start := [Send(G.Config(rate))];
    if |frames| == 0 {
      assert frames == [] && start + CallAudio(frames) == start;
      CallTookNothing(backend, rate);
    } else {
      var init, last := frames[..|frames| - 1], frames[|frames| - 1];
      CallTakes(backend, rate, init);
      CallFrame(backend, backend.SetupFor(rate), start + CallAudio(init), init, last);
      assert start + CallAudio(frames) == start + CallAudio(init) + [Send(G.Audio(last))];
      assert init + [last] == frames;
    }
  }

  lemma CallTookNothing(backend: Backend, rate: nat)
    requires backend.Valid() && SupportedRate(rate) && backend.SetupFor(rate).Valid()
    ensures CallTook(backend.SetupFor(rate), [], G.Run(backend, [Send(G.Config(rate))]))
  {
    hide G.Run, T.Setup.PushAll, Backend.Valid, T.Setup.Valid, G.Transcripts;
    backend.SetupFor(rate).NoPushes([], []);
    CallOpens(backend, rate);
  }

  lemma CallFrame(backend: Backend, setup: T.Setup, arrivals: seq<G.Arrival>, init: seq<seq<Byte>>, last: seq<Byte>)
    requires backend.Valid() && setup.Valid() && 0 < |last| <= G.MAX_STREAM_AUDIO_BYTES
    requires CallTook(setup, init, G.Run(backend, arrivals))
    ensures CallTook(setup, init + [last], G.Run(backend, arrivals + [Send(G.Audio(last))]))
  {
    hide G.Run, G.React, T.Setup.PushAll, T.Setup.PushOutcome, Backend.Valid, T.Setup.Valid, G.Transcripts,
         CallStreaming, G.StatusOf, MapSttError, Flatten;
    var frames := init + [last];
    setup.LastPush([], frames);
    assert frames[..|init|] == init && [] + Flatten(init) == Flatten(init) && [] + Flatten(frames) == Flatten(frames);
    FlattenSnoc(init, last);
    CallTurn(backend, arrivals, Send(G.Audio(last)));
    if setup.PushAll([], init).Success? {
      CallPush(backend, Transcriber(setup, Flatten(init)), last);
    }
  }

  lemma CallTranscribes(backend: Backend, rate: nat, frames: seq<seq<Byte>>)
    requires backend.Valid() && SupportedRate(rate) && backend.SetupFor(rate).Valid()
    requires LegalFrames(frames) && backend.maxChunkBytes >= G.MAX_STREAM_AUDIO_BYTES
    ensures var r := G.Run(backend, CallScript(rate, frames));
            match backend.SetupFor(rate).Transcribed(Flatten(frames))
            case Success(all) =>
              r.call.committed && r.call.returned && G.EndsWithFinal(r.items) && G.Transcripts(r.items) == all
            case Failure(e) => CallFailed(r, e)
  {
    hide G.Run, G.React, T.Setup.PushAll, T.Setup.FinishOutcome, T.Setup.Transcribed, Backend.Valid, T.Setup.Valid,
         G.Transcripts, CallStreaming, G.StatusOf, MapSttError, CallAudio;
    var setup := backend.SetupFor(rate);
    var arrivals := [Send(G.Config(rate))] + CallAudio(frames);
    CallTakes(backend, rate, frames);
    setup.RunStreamIsTranscribed(frames);
    CallTurn(backend, arrivals, Send(G.Commit(true)));
    if setup.PushAll([], frames).Success? {
      CallCommit(backend, Transcriber(setup, Flatten(frames)));
    }
    G.RunShapes(backend, CallScript(rate, frames));
  }

  /**
   * The same recording sent over either transport, under any legal framing: both clients get to the end or neither
   * does; if they do, they are told the same transcripts in the same order, those of the recording itself; and if
   * they do not, each is told the same backend error in its own terms.
   */
  lemma TransportsAgree(backend: Backend, rate: nat, a: seq<seq<Byte>>, b: seq<seq<Byte>>)
    requires backend.Valid() && SupportedRate(rate)
    requires backend.maxChunkBytes >= W.MAX_WS_MESSAGE_BYTES
    requires LegalFrames(a) && LegalFrames(b) && Flatten(a) == Flatten(b)
    ensures var w, g := W.Run(backend, SocketScript(rate, a)), G.Run(backend, CallScript(rate, b));
            && (w.session.completed <==> g.call.committed && G.EndsWithFinal(g.items))
            && (w.session.completed ==>
                  backend.SetupFor(rate).Transcribed(Flatten(a)) == Success(R.Transcripts(w.sent))
                  && R.Transcripts(w.sent) == G.Transcripts(g.items))
            && (!w.session.completed ==> exists e :: SocketFailed(w, e) && CallFailed(g, e))
  {
    hide W.Run, G.Run, T.Setup.Transcribed, Backend.Valid, T.Setup.Valid, R.Transcripts, G.Transcripts, G.StatusOf,
         MapSttError, W.ErrorCode, SocketScript, CallScript;
    G.NothingToldYet(backend, rate);
    SocketTranscribes(backend, rate, a);
    CallTranscribes(backend, rate, b);
  }
}
