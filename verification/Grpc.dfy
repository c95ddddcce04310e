/** The bidirectional `StreamTranscribe` call: its message loop, its transcripts, and its bounded output queue. */
module Grpc {
  import opened Prelude
  import opened Pcm
  import opened VoiceBackend
  import T = Transcription

  const MAX_STREAM_AUDIO_BYTES: nat := 65536
  const OUTPUT_QUEUE: nat := 8

  /** A request message; `Unset` carries no event. */
  datatype Request = Config(rate: nat) | Audio(bytes: seq<Byte>) | Commit(yes: bool) | Cancel(yes: bool) | Unset

  /** What the loop's `select!` yields, with the failure the backend would report if the message called it. */
  datatype Arrival =
    | Message(request: Request, fault: Option<VoiceError>)
    | EndOfStream
    | BrokenStream
    | Stopped(deadline: bool)

  datatype StatusCode = InvalidArgument | ResourceExhausted | CancelledStatus | DeadlineStatus | Internal

  datatype Item = Event(transcript: T.Transcript) | Status(code: StatusCode)

  /** `map_backend_error`. */
  function StatusOf(error: VoiceError): StatusCode {
    match error
    case InvalidInput => InvalidArgument
    case Busy => ResourceExhausted
    case Cancelled => CancelledStatus
    case DeadlineExceeded => DeadlineStatus
    case Engine => Internal
  }

  datatype Call = Call(session: Option<Transcriber>, committed: bool, cancelled: bool, returned: bool)

  const OPENED: Call := Call(None, false, false, false)

  datatype Reaction = Reaction(call: Call, items: seq<Item>)

  function Refuse(c: Call, code: StatusCode): Reaction {
    Reaction(c.(returned := true), [Status(code)])
  }

  function Events(updates: seq<T.Transcript>): (items: seq<Item>)
    ensures |items| == |updates|
    ensures forall i :: 0 <= i < |items| ==> items[i] == Event(updates[i])
  {
    seq(|updates|, i requires 0 <= i < |updates| => Event(updates[i]))
  }

  predicate Usable(c: Call) {
    c.session.Some? ==> c.session.value.setup.Valid()
  }

  function Handle(backend: Backend, c: Call, request: Request, fault: Option<VoiceError>): Reaction
    requires backend.Valid() && Usable(c)
  {
    if request.Config? && c.session.None? && !c.committed then
      (match backend.Start(request.rate, fault)
       case Success(t) => Reaction(c.(session := Some(t)), [])
       case Failure(e) => Refuse(c, StatusOf(e)))
    else if request.Audio? && c.session.Some? && !c.committed && 0 < |request.bytes| <= MAX_STREAM_AUDIO_BYTES then
      var t := c.session.value;
      (match Push(t, request.bytes, fault)
       case Success(updates) =>
         Reaction(c.(session := Some(t.(pushed := t.pushed + request.bytes))), Events(updates))
       case Failure(e) => Refuse(c, StatusOf(e)))
    else if request == Commit(true) && c.session.Some? && !c.committed then
      var taken := c.(committed := true, session := None);
      (match Finish(c.session.value, fault)
       case Success(last) => Reaction(taken.(returned := true), [Event(last)])
       case Failure(e) => Refuse(taken, StatusOf(e)))
    else if request == Cancel(true) then Reaction(c.(cancelled := true, returned := true), [])
    else Refuse(c, InvalidArgument)
  }

  /** One turn of the loop of `stream_transcribe`, with the items it sends to the output queue. */
  function React(backend: Backend, c: Call, arrival: Arrival): Reaction
    requires backend.Valid() && Usable(c)
  {
    if c.returned then Reaction(c, [])
    else
      match arrival
      case Stopped(deadline) => Refuse(c, if deadline then DeadlineStatus else CancelledStatus)
      case BrokenStream => Refuse(c, CancelledStatus)
      case EndOfStream => if c.committed then Reaction(c.(returned := true), []) else Refuse(c, InvalidArgument)
      case Message(request, fault) => Handle(backend, c, request, fault)
  }

  lemma ReactUsable(backend: Backend, c: Call, arrival: Arrival)
    requires backend.Valid() && Usable(c)
    ensures Usable(React(backend, c, arrival).call)
  {
    hide Push, Finish, T.Setup.Valid, Backend.Start, Backend.Valid, Events;
  }

  function Run(backend: Backend, arrivals: seq<Arrival>): (r: Reaction)
    requires backend.Valid()
    ensures Usable(r.call)
  {
    if |arrivals| == 0 then Reaction(OPENED, [])
    else
      var before := Run(backend, arrivals[..|arrivals| - 1]);
      ReactUsable(backend, before.call, arrivals[|arrivals| - 1]);
      var now := React(backend, before.call, arrivals[|arrivals| - 1]);
      Reaction(now.call, before.items + now.items)
  }

  lemma RunSnoc(backend: Backend, arrivals: seq<Arrival>, last: Arrival)
    requires backend.Valid()
    ensures var before := Run(backend, arrivals);
            var now := React(backend, before.call, last);
            Run(backend, arrivals + [last]) == Reaction(now.call, before.items + now.items)
  {
    assert (arrivals + [last])[..|arrivals|] == arrivals;
  }

  lemma RunNothing(backend: Backend)
    requires backend.Valid()
    ensures Run(backend, []) == Reaction(OPENED, [])
  {
  }

  predicate AllEvents(items: seq<Item>) {
    forall i :: 0 <= i < |items| ==> items[i].Event?
  }

  predicate EndsWithStatus(items: seq<Item>) {
    |items| > 0 && items[|items| - 1].Status? && AllEvents(items[..|items| - 1])
  }

  predicate EndsWithFinal(items: seq<Item>) {
    |items| > 0 && items[|items| - 1].Event? && items[|items| - 1].transcript.kind == T.Final && AllEvents(items)
  }

  /**
   * The shape of a call: at the head of the loop nothing is committed and only transcripts have been sent; a call
   * that returned sent one status as its last item, or committed and sent its final transcript last, or was
   * cancelled by the client and says nothing more.
   */
  predicate Shape(c: Call, items: seq<Item>) {
    if !c.returned then !c.committed && !c.cancelled && AllEvents(items)
    else if c.cancelled then AllEvents(items) && !c.committed
    else EndsWithStatus(items) || (c.committed && EndsWithFinal(items))
  }

  lemma StatusEnds(items: seq<Item>, code: StatusCode)
    requires AllEvents(items)
    ensures EndsWithStatus(items + [Status(code)])
  {
    assert (items + [Status(code)])[..|items|] == items;
  }

  lemma FinalEnds(items: seq<Item>, last: T.Transcript)
    requires AllEvents(items) && last.kind == T.Final
    ensures EndsWithFinal(items + [Event(last)])
  {
  }

  lemma EventsAdd(items: seq<Item>, updates: seq<T.Transcript>)
    requires AllEvents(items)
    ensures AllEvents(items + Events(updates))
  {
  }

  lemma HandleShapes(backend: Backend, c: Call, request: Request, fault: Option<VoiceError>, items: seq<Item>)
    requires backend.Valid() && Usable(c) && !c.returned && Shape(c, items)
    ensures var r := Handle(backend, c, request, fault); Shape(r.call, items + r.items)
  {
    hide Push, Finish, T.Setup.Valid, Backend.Start, Backend.Valid, StatusOf, AllEvents, EndsWithStatus, EndsWithFinal,
         Events;
    var r := Handle(backend, c, request, fault);
    assert items + [] == items;
    if |r.items| == 1 && r.items[0].Status? {
      StatusEnds(items, r.items[0].code);
      assert r.items == [r.items[0]];
    }
    if request.Audio? && c.session.Some? && Push(c.session.value, request.bytes, fault).Success? {
      EventsAdd(items, Push(c.session.value, request.bytes, fault).value);
    } else if request.Commit? && c.session.Some? && Finish(c.session.value, fault).Success? {
      FinishIsFinal(c.session.value, fault);
      FinalEnds(items, Finish(c.session.value, fault).value);
    }
  }

  lemma ReactShapes(backend: Backend, c: Call, arrival: Arrival, items: seq<Item>)
    requires backend.Valid() && Usable(c) && Shape(c, items)
    ensures Shape(React(backend, c, arrival).call, items + React(backend, c, arrival).items)
  {
    hide Handle, T.Setup.Valid, Backend.Valid, AllEvents, EndsWithStatus, EndsWithFinal;
    assert items + [] == items;
    if !c.returned {
      match arrival {
        case Message(request, fault) => HandleShapes(backend, c, request, fault, items);
        case Stopped(deadline) => StatusEnds(items, if deadline then DeadlineStatus else CancelledStatus);
        case BrokenStream => StatusEnds(items, CancelledStatus);
        case EndOfStream => StatusEnds(items, InvalidArgument);
      }
    }
  }

  /** Every call, whatever arrives, has that shape. */
  lemma {:induction false} RunShapes(backend: Backend, arrivals: seq<Arrival>)
    requires backend.Valid()
    ensures Shape(Run(backend, arrivals).call, Run(backend, arrivals).items)
  {
    hide React, Shape, T.Setup.Valid, Backend.Valid;
    if |arrivals| == 0 {
      ShapeNothing();
    } else {
      var init, last := arrivals[..|arrivals| - 1], arrivals[|arrivals| - 1];
      assert init + [last] == arrivals;
      RunShapes(backend, init);
      RunSnoc(backend, init, last);
      ReactShapes(backend, Run(backend, init).call, last, Run(backend, init).items);
    }
  }

  lemma ShapeNothing()
    ensures Shape(OPENED, [])
  {
  }

  // ---- Transcripts

  function Transcripts(items: seq<Item>): seq<T.Transcript> {
    if |items| == 0 then []
    else
      Transcripts(items[..|items| - 1])
      + (if items[|items| - 1].Event? then [items[|items| - 1].transcript] else [])
  }

  lemma {:induction false} TranscriptsAppend(a: seq<Item>, b: seq<Item>)
    ensures Transcripts(a + b) == Transcripts(a) + Transcripts(b)
  {
    if |b| == 0 {
      assert a + b == a;
    } else {
      assert (a + b)[..|a + b| - 1] == a + b[..|b| - 1];
      TranscriptsAppend(a, b[..|b| - 1]);
    }
  }

  lemma {:induction false} TranscriptsOfEvents(updates: seq<T.Transcript>)
    ensures Transcripts(Events(updates)) == updates
  {
    if |updates| > 0 {
      TranscriptsOfEvents(updates[..|updates| - 1]);
      assert Events(updates)[..|updates| - 1] == Events(updates[..|updates| - 1]);
    }
  }

  lemma TranscriptsOfOne(item: Item)
    ensures Transcripts([item]) == (if item.Event? then [item.transcript] else [])
    ensures Transcripts([]) == []
  {
    assert [item][..0] == [];
  }

  /** The sample rate of the configuration that opened the session. */
  function RateOf(backend: Backend, arrivals: seq<Arrival>): Option<nat>
    requires backend.Valid()
  {
    if |arrivals| == 0 then None
    else
      var init, last := arrivals[..|arrivals| - 1], arrivals[|arrivals| - 1];
      var earlier := RateOf(backend, init);
      if earlier.Some? then earlier else Opens(Run(backend, init).call, Run(backend, arrivals).call, last)
  }

  function Opens(before: Call, after: Call, arrival: Arrival): Option<nat> {
    if before.session.None? && after.session.Some? && arrival.Message? && arrival.request.Config?
    then Some(arrival.request.rate) else None
  }

  /** The audio taken in by one turn: the bytes of an audio message after which the loop goes on. */
  function TakenIn(before: Call, after: Call, arrival: Arrival): seq<Byte> {
    if !before.returned && !after.returned && arrival.Message? && arrival.request.Audio? then arrival.request.bytes else []
  }

  function AcceptedAudio(backend: Backend, arrivals: seq<Arrival>): seq<Byte>
    requires backend.Valid()
  {
    if |arrivals| == 0 then []
    else
      var init := arrivals[..|arrivals| - 1];
      AcceptedAudio(backend, init) + TakenIn(Run(backend, init).call, Run(backend, arrivals).call, arrivals[|arrivals| - 1])
  }

  /** What the client should have been told after this audio, and whether the final transcript is included. */
  function Expected(backend: Backend, rate: Option<nat>, audio: seq<Byte>, finished: bool)
    : Result<seq<T.Transcript>, T.SttError>
    requires backend.Valid() && (rate.Some? ==> SupportedRate(rate.value))
  {
    if rate.None? then Success([])
    else
      var setup := backend.SetupFor(rate.value);
      if finished then setup.Finished(Success(setup.Updates(audio)), audio) else Success(setup.Updates(audio))
  }

  /** The call ended with its final transcript. */
  predicate Finished(c: Call, items: seq<Item>) {
    c.returned && !c.cancelled && c.committed && EndsWithFinal(items)
  }

  ghost predicate Told(backend: Backend, rate: Option<nat>, c: Call, items: seq<Item>, audio: seq<Byte>)
    requires backend.Valid()
  {
    && (rate.Some? ==> SupportedRate(rate.value))
    && (c.session.Some? ==> rate.Some? && c.session.value == Transcriber(backend.SetupFor(rate.value), audio))
    && (!c.returned ==> (c.session.Some? <==> rate.Some?))
    && (rate.None? ==> audio == [])
    && (c.committed ==> rate.Some? && c.returned)
    && Expected(backend, rate, audio, Finished(c, items)) == Success(Transcripts(items))
  }

  lemma NothingToldYet(backend: Backend, rate: nat)
    requires backend.Valid() && SupportedRate(rate)
    ensures backend.SetupFor(rate).Valid() && backend.SetupFor(rate).Updates([]) == []
  {
    hide T.Setup.Updates;
    backend.SetupFor(rate).NothingTranscribed();
  }

  lemma TurnTells(backend: Backend, rate: Option<nat>, c: Call, arrival: Arrival, items: seq<Item>, audio: seq<Byte>)
    requires backend.Valid() && Usable(c) && Shape(c, items)
    requires Told(backend, rate, c, items, audio)
    ensures var r := React(backend, c, arrival);
            var begun := Opens(c, r.call, arrival);
            Told(backend, if rate.Some? then rate else begun, r.call, items + r.items, audio + TakenIn(c, r.call, arrival))
  {
    hide T.Setup.Valid, T.Setup.Updates, T.Setup.FinishOutcome, Backend.Valid, Push, SupportedRate, Transcripts, AllEvents,
         Events;
    var r := React(backend, c, arrival);
    assert audio + [] == audio;
    ReactShapes(backend, c, arrival, items);
    TranscriptsAppend(items, r.items);
    if |r.items| > 0 {
      TranscriptsOfOne(r.items[0]);
    } else {
      TranscriptsOfOne(Status(InvalidArgument));
    }
    assert items + [] == items && Transcripts(items) + [] == Transcripts(items);
    if c.returned {
    } else if arrival.Message? && arrival.request.Config? {
      if SupportedRate(arrival.request.rate) {
        NothingToldYet(backend, arrival.request.rate);
      }
    } else if arrival.Message? && arrival.request.Audio? && c.session.Some? {
      if Push(c.session.value, arrival.request.bytes, arrival.fault).Success? {
        PushExtends(c.session.value, arrival.request.bytes, arrival.fault);
        TranscriptsOfEvents(Push(c.session.value, arrival.request.bytes, arrival.fault).value);
      }
    } else if arrival.Message? && arrival.request.Commit? && c.session.Some? {
      if Finish(c.session.value, arrival.fault).Success? {
        FinishIsFinal(c.session.value, arrival.fault);
      }
    }
  }

  /** Every call sends exactly the updates of the audio it accepted, and its final transcript iff it was committed. */
  lemma {:induction false} RunTells(backend: Backend, arrivals: seq<Arrival>)
    requires backend.Valid()
    ensures var r := Run(backend, arrivals);
            Told(backend, RateOf(backend, arrivals), r.call, r.items, AcceptedAudio(backend, arrivals))
  {
    hide React, Told, Backend.Valid, T.Setup.Valid, Shape, Usable, Opens, TakenIn;
    if |arrivals| == 0 {
      ToldNothing(backend);
      assert arrivals == [];
    } else {
      var init, last := arrivals[..|arrivals| - 1], arrivals[|arrivals| - 1];
      assert init + [last] == arrivals;
      var before := Run(backend, init);
      RunTells(backend, init);
      RunShapes(backend, init);
      RunSnoc(backend, init, last);
      TurnTells(backend, RateOf(backend, init), before.call, last, before.items, AcceptedAudio(backend, init));
    }
  }

  lemma ToldNothing(backend: Backend)
    requires backend.Valid()
    ensures Told(backend, None, OPENED, [], [])
  {
  }

  lemma OneMore(backend: Backend, arrivals: seq<Arrival>, k: nat)
    requires backend.Valid() && k < |arrivals|
    ensures var before := Run(backend, arrivals[..k]);
            var now := React(backend, before.call, arrivals[k]);
            Run(backend, arrivals[..k + 1]) == Reaction(now.call, before.items + now.items)
  {
    hide Run, React, Backend.Valid, T.Setup.Valid;
    RunSnoc(backend, arrivals[..k], arrivals[k]);
    assert arrivals[..k + 1] == arrivals[..k] + [arrivals[k]];
  }

  /** Whatever arrives after a call returned is ignored. */
  lemma {:induction false} AfterReturn(backend: Backend, arrivals: seq<Arrival>, k: nat)
    requires backend.Valid() && k <= |arrivals|
    ensures Run(backend, arrivals[..k]).call.returned ==> Run(backend, arrivals) == Run(backend, arrivals[..k])
    decreases |arrivals| - k
  {
    hide Run, Handle, Backend.Valid, T.Setup.Valid;
    if k == |arrivals| {
      assert arrivals[..k] == arrivals;
    } else {
      OneMore(backend, arrivals, k);
      AfterReturn(backend, arrivals, k + 1);
      assert Run(backend, arrivals[..k]).items + [] == Run(backend, arrivals[..k]).items;
    }
  }

  /**
   * The loop of `stream_transcribe` as it runs, over everything that has arrived so far: it sends what the call
   * calls for, and ends exactly when the call returned.
   */
  method StreamTranscribe(backend: Backend, arrivals: seq<Arrival>) returns (sent: seq<Item>, returned: bool)
    requires backend.Valid()
    ensures sent == Run(backend, arrivals).items && returned == Run(backend, arrivals).call.returned
  {
    hide Run, Backend.Valid, T.Setup.Valid, Events, Push, Finish, Backend.Start;
    var session: Option<Transcriber> := None;
    var committed := false;
    sent, returned := [], false;
    RunNothing(backend);
    var next := 0;
    while next < |arrivals|
      invariant 0 <= next <= |arrivals|
      invariant Run(backend, arrivals[..next]) == Reaction(Call(session, committed, false, false), sent)
    {
      var arrival := arrivals[next];
      OneMore(backend, arrivals, next);
      AfterReturn(backend, arrivals, next + 1);
      match arrival {
        case Stopped(deadline) =>
          return sent + [Status(if deadline then DeadlineStatus else CancelledStatus)], true;
        case BrokenStream => return sent + [Status(CancelledStatus)], true;
        case EndOfStream =>
          if !committed {
            sent := sent + [Status(InvalidArgument)];
          }
          return sent, true;
        case Message(request, fault) =>
          var error: Option<VoiceError> := None;
          if request.Config? && session.None? && !committed {
            match backend.Start(request.rate, fault) {
              case Success(t) => session := Some(t);
              case Failure(e) => error := Some(e);
            }
          } else if request.Audio? && session.Some? && !committed && 0 < |request.bytes| <= MAX_STREAM_AUDIO_BYTES {
            var t := session.value;
            match Push(t, request.bytes, fault) {
              case Success(updates) =>
                session := Some(t.(pushed := t.pushed + request.bytes));
                sent := sent + Events(updates);
              case Failure(e) => error := Some(e);
            }
          } else if request == Commit(true) && session.Some? && !committed {
            committed := true;
            match Finish(session.value, fault) {
              case Success(last) => return sent + [Event(last)], true;
              case Failure(e) => error := Some(e);
            }
          } else if request == Cancel(true) {
            return sent, true;
          } else {
            error := Some(InvalidInput);
          }
          if error.Some? {
            return sent + [Status(StatusOf(error.value))], true;
          }
      }
      next := next + 1;
    }
    assert arrivals[..next] == arrivals;
  }

  // ---- The bounded output queue

  /**
   * The loop and its response stream: the items of the current message still to be sent, the queue between the loop
   * and the client, and what the client has received. `taken` records the messages the loop has read.
   */
  datatype Stream = Stream(taken: seq<Arrival>, call: Call, outbox: seq<Item>, queue: seq<Item>, received: seq<Item>,
                           listening: bool)

  /** What can happen next: the loop reads or sends, the client reads or goes away. */
  datatype Action = Take(arrival: Arrival) | Send | Poll | DropReceiver

  const BEGUN: Stream := Stream([], OPENED, [], [], [], true)

  /** One action; one that cannot happen now leaves everything as it is. */
  function Act(backend: Backend, s: Stream, action: Action): Stream
    requires backend.Valid() && Usable(s.call)
  {
    match action
    case Take(arrival) =>
      if s.outbox != [] || s.call.returned then s
      else
        var r := React(backend, s.call, arrival);
        s.(taken := s.taken + [arrival], call := r.call, outbox := r.items)
    case Send =>
      if s.outbox == [] then s
      else if !s.listening then s.(outbox := [], call := s.call.(returned := true))
      else if |s.queue| >= OUTPUT_QUEUE then s
      else s.(queue := s.queue + [s.outbox[0]], outbox := s.outbox[1..])
    case Poll =>
      if s.queue == [] || !s.listening then s
      else s.(received := s.received + [s.queue[0]], queue := s.queue[1..])
    case DropReceiver => s.(listening := false, queue := [])
  }

  /** The queue is bounded, and nothing is lost, repeated or reordered on the way to a client that keeps listening. */
  ghost predicate InFlight(backend: Backend, s: Stream)
    requires backend.Valid()
  {
    var made := Run(backend, s.taken);
    && |s.queue| <= OUTPUT_QUEUE
    && Usable(s.call)
    && s.received <= made.items
    && (s.listening ==> s.call == made.call && s.received + s.queue + s.outbox == made.items)
    && (!s.listening && !s.call.returned ==> s.call == made.call)
  }

  /** A send goes through exactly while the client reads and fewer than eight items wait for it. */
  lemma SendsWhileThereIsRoom(backend: Backend, s: Stream)
    requires backend.Valid() && Usable(s.call) && s.outbox != [] && s.listening
    ensures |s.queue| < 8 ==> Act(backend, s, Send) == s.(queue := s.queue + [s.outbox[0]], outbox := s.outbox[1..])
    ensures |s.queue| >= 8 ==> Act(backend, s, Send) == s
  {
  }

  lemma ActInFlight(backend: Backend, s: Stream, action: Action)
    requires backend.Valid() && InFlight(backend, s)
    ensures InFlight(backend, Act(backend, s, action))
  {
    hide Run, React, T.Setup.Valid, Backend.Valid;
    match action {
      case Take(arrival) =>
        if s.outbox == [] && !s.call.returned {
          var r := React(backend, s.call, arrival);
          ReactUsable(backend, s.call, arrival);
          RunSnoc(backend, s.taken, arrival);
          assert s.listening ==> s.received + s.queue + [] == s.received + s.queue;
        }
      case Send =>
        if s.outbox != [] && s.listening {
          assert s.outbox == [s.outbox[0]] + s.outbox[1..];
        }
      case Poll =>
        if s.queue != [] && s.listening {
          assert s.queue == [s.queue[0]] + s.queue[1..];
          assert s.received + [s.queue[0]] + s.queue[1..] + s.outbox == s.received + s.queue + s.outbox;
        }
      case DropReceiver =>
    }
  }

  function Exec(backend: Backend, actions: seq<Action>): (s: Stream)
    requires backend.Valid()
    ensures InFlight(backend, s)
  {
    if |actions| == 0 then
      RunNothing(backend);
      BEGUN
    else
      var before := Exec(backend, actions[..|actions| - 1]);
      ActInFlight(backend, before, actions[|actions| - 1]);
      Act(backend, before, actions[|actions| - 1])
  }

  lemma ExecSnoc(backend: Backend, actions: seq<Action>, last: Action)
    requires backend.Valid()
    ensures Exec(backend, actions + [last]) == Act(backend, Exec(backend, actions), last)
  {
    assert (actions + [last])[..|actions|] == actions;
  }

  /**
   * Whatever the interleaving of the loop, the transport and the client, what the client has received is a prefix of
   * what the messages call for; the loop is never more than one message and a full queue ahead of the client; and
   * once nothing is in flight a listening client has received everything, ending as a call must end.
   */
  lemma ClientSeesTheRun(backend: Backend, actions: seq<Action>)
    requires backend.Valid()
    ensures var s := Exec(backend, actions);
            var made := Run(backend, s.taken);
            && s.received <= made.items
            && |s.queue| <= OUTPUT_QUEUE
            && (s.listening ==> |made.items| - |s.received| <= OUTPUT_QUEUE + |s.outbox|)
            && (s.listening && s.queue == [] && s.outbox == [] ==> s.received == made.items && Shape(s.call, s.received))
  {
    hide Run, Exec, Act, T.Setup.Valid, Backend.Valid, Shape, Usable;
    RunShapes(backend, Exec(backend, actions).taken);
  }

  function SendAndPoll(n: nat): seq<Action> {
    if n == 0 then [] else SendAndPoll(n - 1) + [Send, Poll]
  }

  /** A client that goes on reading receives everything: however slowly it reads, no result is dropped. */
  lemma {:induction false} ReadingDrains(backend: Backend, actions: seq<Action>, n: nat)
    requires backend.Valid() && Exec(backend, actions).listening
    ensures var s, t := Exec(backend, actions), Exec(backend, actions + SendAndPoll(n));
            && t.listening && t.taken == s.taken
            && (n >= |s.queue| + |s.outbox| ==> t.received == Run(backend, s.taken).items)
  {
    hide Run, Exec, T.Setup.Valid, Backend.Valid, Usable, React;
    DrainRound(backend, actions, n);
  }

  /** Every round delivers an item, as long as one is in flight. */
  lemma {:induction false} DrainRound(backend: Backend, actions: seq<Action>, n: nat)
    requires backend.Valid() && Exec(backend, actions).listening
    ensures var s, t := Exec(backend, actions), Exec(backend, actions + SendAndPoll(n));
            && t.listening && t.taken == s.taken
            && |t.queue| + |t.outbox| <= if n <= |s.queue| + |s.outbox| then |s.queue| + |s.outbox| - n else 0
  {
    hide Run, Exec, T.Setup.Valid, Backend.Valid, Usable, React;
    if n == 0 {
      assert actions + SendAndPoll(0) == actions;
    } else {
      var done := actions + SendAndPoll(n - 1);
      DrainRound(backend, actions, n - 1);
      assert actions + SendAndPoll(n) == done + [Send] + [Poll];
      ExecSnoc(backend, done, Send);
      ExecSnoc(backend, done + [Send], Poll);
    }
  }
}
