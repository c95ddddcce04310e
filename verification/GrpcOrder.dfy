/** Which messages the gRPC call allows after what went before, and how each kind of call ends. */
module GrpcOrder {
  import opened Prelude
  import opened VoiceBackend
  import opened Grpc
  import W = Realtime
  import R = RealtimeRuns
  import T = Transcription

  /** The client has configured the call. */
  predicate Configured(arrivals: seq<Arrival>) {
    exists i :: 0 <= i < |arrivals| && arrivals[i].Message? && arrivals[i].request.Config?
  }

  /** Whether the client may send this next in a call that goes on. */
  predicate Allowed(arrivals: seq<Arrival>, request: Request) {
    match request
    case Config(_) => !Configured(arrivals)
    case Audio(bytes) => Configured(arrivals) && 0 < |bytes| <= 65536
    case Commit(yes) => yes && Configured(arrivals)
    case Cancel(yes) => yes
    case Unset => false
  }

  lemma TurnConfigures(backend: Backend, c: Call, arrival: Arrival)
    requires backend.Valid() && Usable(c) && !c.returned && !c.committed
    ensures var after := React(backend, c, arrival).call;
            !after.returned ==>
              (after.session.Some? <==> c.session.Some? || (arrival.Message? && arrival.request.Config?))
  {
    hide Push, Finish, T.Setup.Valid, Backend.Start, Backend.Valid, Events, StatusOf;
  }

  /** While a call goes on, it has a session exactly if it has been configured. */
  lemma {:induction false} SessionIsConfigured(backend: Backend, arrivals: seq<Arrival>)
    requires backend.Valid() && !Run(backend, arrivals).call.returned
    ensures Run(backend, arrivals).call.session.Some? <==> Configured(arrivals)
    ensures !Run(backend, arrivals).call.committed
  {
    hide React, T.Setup.Valid, Backend.Valid, Shape;
    RunShapes(backend, arrivals);
    AtLoopHead(Run(backend, arrivals).call, Run(backend, arrivals).items);
    if |arrivals| == 0 {
      RunNothing(backend);
      assert arrivals == [];
    } else {
      var init, last := arrivals[..|arrivals| - 1], arrivals[|arrivals| - 1];
      assert init + [last] == arrivals;
      AfterReturn(backend, arrivals, |init|);
      assert arrivals[..|init|] == init;
      SessionIsConfigured(backend, init);
      RunSnoc(backend, init, last);
      TurnConfigures(backend, Run(backend, init).call, last);
      ConfiguredSnoc(init, last);
    }
  }

  lemma AtLoopHead(c: Call, items: seq<Item>)
    requires Shape(c, items) && !c.returned
    ensures !c.committed
  {
  }

  lemma ConfiguredSnoc(init: seq<Arrival>, last: Arrival)
    ensures Configured(init + [last]) <==> Configured(init) || (last.Message? && last.request.Config?)
  {
    var all := init + [last];
    assert all[|init|] == last;
    assert forall i :: 0 <= i < |init| ==> all[i] == init[i];
  }

  /** The last item is the backend's error, which is an invalid request unless the environment made it fail. */
  ghost predicate EndsWithError(before: seq<Item>, after: seq<Item>, fault: Option<VoiceError>) {
    after == before + [Status(StatusOf(if fault.Some? then fault.value else VoiceError.InvalidInput))]
  }

  /**
   * A message out of order, and without a failing backend only one out of order or a recording that is refused, ends the
   * call with `INVALID_ARGUMENT`; a cancel ends it without a word; a commit ends it with the final transcript or an error.
   */
  lemma OrderIsEnforced(backend: Backend, arrivals: seq<Arrival>, request: Request, fault: Option<VoiceError>)
    requires backend.Valid() && !Run(backend, arrivals).call.returned
    ensures var before, after := Run(backend, arrivals), Run(backend, arrivals + [Message(request, fault)]);
            && (!Allowed(arrivals, request) ==>
                  after.call.returned && after.items == before.items + [Status(InvalidArgument)])
            && (request == Cancel(true) ==>
                  after.call.returned && after.call.cancelled && after.items == before.items)
            && (Allowed(arrivals, request) && request.Commit? ==>
                  after.call.returned
                  && ((exists last: T.Transcript :: last.kind == T.Final && after.items == before.items + [Event(last)])
                      || EndsWithError(before.items, after.items, fault)))
            && (Allowed(arrivals, request) && (request.Config? || request.Audio?) && after.call.returned ==>
                  EndsWithError(before.items, after.items, fault))
  {
    hide Run, Backend.Valid, T.Setup.Valid, StatusOf, Configured;
    SessionIsConfigured(backend, arrivals);
    RunSnoc(backend, arrivals, Message(request, fault));
    assert Run(backend, arrivals).items + [] == Run(backend, arrivals).items;
    var session := Run(backend, arrivals).call.session;
    if request.Config? {
      StartFails(backend, request.rate, fault);
    } else if request.Audio? && session.Some? {
      RunIsUsable(backend, arrivals);
      PushFails(session.value, request.bytes, fault);
    } else if request.Commit? && session.Some? {
      RunIsUsable(backend, arrivals);
      FinishFails(session.value, fault);
      if Finish(session.value, fault).Success? {
        FinishIsFinal(session.value, fault);
      }
    }
  }

  lemma RunIsUsable(backend: Backend, arrivals: seq<Arrival>)
    requires backend.Valid()
    ensures Usable(Run(backend, arrivals).call)
  {
    hide Run;
  }

  /** How a call ends that is not ended by a message. */
  lemma OtherEnds(backend: Backend, arrivals: seq<Arrival>)
    requires backend.Valid() && !Run(backend, arrivals).call.returned
    ensures var before := Run(backend, arrivals);
            var ended := Run(backend, arrivals + [EndOfStream]);
            var broken := Run(backend, arrivals + [BrokenStream]);
            var stopped := Run(backend, arrivals + [Stopped(false)]);
            var late := Run(backend, arrivals + [Stopped(true)]);
            && ended.call.returned && ended.items == before.items + [Status(InvalidArgument)]
            && broken.call.returned && broken.items == before.items + [Status(CancelledStatus)]
            && stopped.call.returned && stopped.items == before.items + [Status(CancelledStatus)]
            && late.call.returned && late.items == before.items + [Status(DeadlineStatus)]
  {
    hide Run, Backend.Valid;
    SessionIsConfigured(backend, arrivals);
    RunSnoc(backend, arrivals, EndOfStream);
    RunSnoc(backend, arrivals, BrokenStream);
    RunSnoc(backend, arrivals, Stopped(false));
    RunSnoc(backend, arrivals, Stopped(true));
  }

  /** Both transports report the same failures: what a WebSocket client reads as a code, a gRPC client gets as a status. */
  lemma ErrorsAgree(error: VoiceError)
    ensures W.ErrorCode(error) == "invalid_request" <==> StatusOf(error) == InvalidArgument
    ensures W.ErrorCode(error) == "overloaded" <==> StatusOf(error) == ResourceExhausted
    ensures W.ErrorCode(error) == "cancelled" <==> StatusOf(error) == CancelledStatus
    ensures W.ErrorCode(error) == "deadline_exceeded" <==> StatusOf(error) == DeadlineStatus
    ensures W.ErrorCode(error) == "engine_error" <==> StatusOf(error) == Internal
    ensures StatusOf(VoiceError.Busy) == ResourceExhausted && StatusOf(VoiceError.Engine) == Internal
    ensures StatusOf(VoiceError.DeadlineExceeded) == DeadlineStatus && StatusOf(VoiceError.Cancelled) == CancelledStatus
  {
    assert |"invalid_request"| == 15 && |"overloaded"| == 10 && |"cancelled"| == 9;
    assert |"deadline_exceeded"| == 17 && |"engine_error"| == 12;
  }
}
