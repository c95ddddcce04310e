/**
 * Capacity accounting under interleaving: the HTTP admission and execution semaphores, the WebSocket session
 * semaphore, and the permits of native work, which can outlive the request that started it.
 */
module Capacity {
  import opened Prelude

  datatype Policy = Policy(maxConcurrent: nat, queueCapacity: nat) {
    /** The permits of the admission semaphore. */
    function Total(): nat {
      SatAdd(maxConcurrent, queueCapacity)
    }
  }

  datatype Engine = Stt | Tts

  /** Who started a native operation: an HTTP request, a WebSocket session or a gRPC call. */
  datatype Origin = FromRequest(id: nat) | FromSocket(id: nat) | FromCall(id: nat)

  datatype Operation = Operation(origin: Origin, serial: nat)

  /** The admitted requests by where they are in `enforce_workload_policy`, and the permits nobody holds. */
  datatype Admission = Admission(
    stopping: bool,
    seen: set<nat>,
    reading: set<nat>,
    waiting: seq<nat>,
    executing: set<nat>,
    replying: set<nat>,
    admissionFree: int,
    executionFree: int)
  {
    function Admitted(): set<nat> {
      reading + Elements(waiting) + executing + replying
    }
  }

  /** The open WebSocket sessions, and each engine's live native work with the counter of its limiter. */
  datatype Native = Native(
    sockets: set<nat>,
    sessionsFree: int,
    stt: set<Operation>,
    sttActive: int,
    tts: set<Operation>,
    ttsActive: int)
  {
    function Live(engine: Engine): set<Operation> {
      if engine == Stt then stt else tts
    }

    function Active(engine: Engine): int {
      if engine == Stt then sttActive else ttsActive
    }

    function Set(engine: Engine, live: set<Operation>, active: int): Native {
      if engine == Stt then this.(stt := live, sttActive := active) else this.(tts := live, ttsActive := active)
    }
  }

  datatype Server = Server(policy: Policy, http: Admission, native: Native)

  function Elements(queue: seq<nat>): set<nat> {
    set id | id in queue
  }

  function Fresh(policy: Policy): Server {
    Server(policy,
           Admission(false, {}, {}, [], {}, {}, policy.Total(), policy.maxConcurrent),
           Native({}, policy.maxConcurrent, {}, 0, {}, 0))
  }

  /**
   * One step of a request. `Leave` is any return from the middleware that still holds its admission permit, by an
   * answer, a stop, a deadline or a dropped connection; a request that runs first gives up its execution permit by
   * `Finish`, also when it is dropped.
   */
  datatype RequestStep = Arrive(id: nat) | BodyRead(id: nat) | Finish(id: nat) | Leave(id: nat) | Stop

  datatype NativeStep =
    | OpenSocket(id: nat, socket: nat)
    | CloseSocket(socket: nat)
    | Begin(engine: Engine, work: Operation)
    | End(engine: Engine, work: Operation)

  datatype Event = Http(request: RequestStep) | Inside(step: NativeStep)

  datatype Reply = Silent | Cancelled | Overloaded | Admitted | SocketOpened | Started | Busy

  function Without(queue: seq<nat>, id: nat): seq<nat> {
    if |queue| == 0 then []
    else if queue[0] == id then queue[1..]
    else [queue[0]] + Without(queue[1..], id)
  }

  /** A released execution permit goes to the request that has waited longest. */
  function ReleaseExecution(h: Admission): Admission {
    if |h.waiting| > 0 then h.(executing := h.executing + {h.waiting[0]}, waiting := h.waiting[1..])
    else h.(executionFree := h.executionFree + 1)
  }

  /** A step of one request; one that cannot happen now changes nothing. */
  function NextRequest(h: Admission, step: RequestStep): (Admission, Reply) {
    match step
    case Arrive(id) =>
      if id in h.seen then (h, Silent)
      else if h.stopping then (h.(seen := h.seen + {id}), Cancelled)
      else if h.admissionFree <= 0 then (h.(seen := h.seen + {id}), Overloaded)
      else (h.(seen := h.seen + {id}, reading := h.reading + {id}, admissionFree := h.admissionFree - 1), Admitted)
    case BodyRead(id) =>
      if id !in h.reading then (h, Silent)
      else if h.executionFree > 0 then
        (h.(reading := h.reading - {id}, executing := h.executing + {id}, executionFree := h.executionFree - 1), Silent)
      else (h.(reading := h.reading - {id}, waiting := h.waiting + [id]), Silent)
    case Finish(id) =>
      if id !in h.executing then (h, Silent)
      else (ReleaseExecution(h.(executing := h.executing - {id}, replying := h.replying + {id})), Silent)
    case Leave(id) =>
      if id in h.reading then (h.(reading := h.reading - {id}, admissionFree := h.admissionFree + 1), Silent)
      else if id in h.waiting then
        (h.(waiting := Without(h.waiting, id), admissionFree := h.admissionFree + 1), Silent)
      else if id in h.replying then (h.(replying := h.replying - {id}, admissionFree := h.admissionFree + 1), Silent)
      else (h, Silent)
    case Stop => (h.(stopping := true), Silent)
  }

  /**
   * A step of a session or of native work. Work may begin whatever has become of its origin: a worker that has found
   * its request live may lose it before it takes its permit.
   */
  function NextNative(s: Server, step: NativeStep): (Native, Reply) {
    var n := s.native;
    match step
    case OpenSocket(id, socket) =>
      if id !in s.http.executing || socket in n.sockets then (n, Silent)
      else if n.sessionsFree <= 0 then (n, Busy)
      else (n.(sockets := n.sockets + {socket}, sessionsFree := n.sessionsFree - 1), SocketOpened)
    case CloseSocket(socket) =>
      if socket !in n.sockets then (n, Silent)
      else (n.(sockets := n.sockets - {socket}, sessionsFree := n.sessionsFree + 1), Silent)
    case Begin(engine, work) =>
      if work in n.Live(engine) then (n, Silent)
      else if n.Active(engine) >= s.policy.maxConcurrent then (n, Busy)
      else (n.Set(engine, n.Live(engine) + {work}, n.Active(engine) + 1), Started)
    case End(engine, work) =>
      if work !in n.Live(engine) then (n, Silent)
      else (n.Set(engine, n.Live(engine) - {work}, n.Active(engine) - 1), Silent)
  }

  function Next(s: Server, event: Event): (Server, Reply) {
    match event
    case Http(step) => var (h, reply) := NextRequest(s.http, step); (s.(http := h), reply)
    case Inside(step) => var (n, reply) := NextNative(s, step); (s.(native := n), reply)
  }

  function Run(policy: Policy, events: seq<Event>): Server {
    if |events| == 0 then Fresh(policy) else Next(Run(policy, events[..|events| - 1]), events[|events| - 1]).0
  }

  lemma RunSnoc(policy: Policy, events: seq<Event>, last: Event)
    ensures Run(policy, events + [last]) == Next(Run(policy, events), last).0
  {
    assert (events + [last])[..|events|] == events;
  }

  // ---- Invariants

  /** Every admitted request is at exactly one place. */
  ghost predicate Placed(h: Admission) {
    && h.reading !! h.executing && h.reading !! h.replying && h.executing !! h.replying
    && h.reading <= h.seen && h.executing <= h.seen && h.replying <= h.seen
    && (forall id :: id in h.waiting ==>
          id in h.seen && id !in h.reading && id !in h.executing && id !in h.replying)
    && (forall i, j :: 0 <= i < j < |h.waiting| ==> h.waiting[i] != h.waiting[j])
  }

  /** Both semaphores hold exactly the permits nobody has, and nobody waits while one is free. */
  ghost predicate Accounted(policy: Policy, h: Admission) {
    && h.admissionFree == policy.Total() - |h.reading| - |h.waiting| - |h.executing| - |h.replying|
    && h.admissionFree >= 0
    && h.executionFree == policy.maxConcurrent - |h.executing| >= 0
    && (|h.waiting| > 0 ==> h.executionFree == 0)
  }

  /** The counters of sessions and native work are the numbers of live ones, within their maxima. */
  ghost predicate Limited(policy: Policy, n: Native) {
    && n.sessionsFree == policy.maxConcurrent - |n.sockets| >= 0
    && n.sttActive == |n.stt| <= policy.maxConcurrent
    && n.ttsActive == |n.tts| <= policy.maxConcurrent
  }

  lemma {:induction false} WithoutRemoves(queue: seq<nat>, id: nat)
    requires id in queue
    requires forall i, j :: 0 <= i < j < |queue| ==> queue[i] != queue[j]
    ensures var rest := Without(queue, id);
            && |rest| == |queue| - 1
            && (forall x :: x in rest <==> x in queue && x != id)
            && (forall i, j :: 0 <= i < j < |rest| ==> rest[i] != rest[j])
  {
    var head, tail := queue[0], queue[1..];
    assert queue == [head] + tail;
    assert head !in tail;
    if head != id {
      WithoutRemoves(tail, id);
    }
  }

  lemma RemovedOne<T>(s: set<T>, x: T)
    requires x in s
    ensures |s - {x}| == |s| - 1
  {
  }

  lemma StepPlaces(h: Admission, step: RequestStep)
    requires Placed(h)
    ensures Placed(NextRequest(h, step).0)
  {
    if step.Leave? && step.id !in h.reading && step.id in h.waiting {
      WithoutRemoves(h.waiting, step.id);
    }
  }

  lemma AddedOne<T>(s: set<T>, x: T)
    requires x !in s
    ensures |s + {x}| == |s| + 1
  {
  }

  lemma ArriveAccounts(policy: Policy, h: Admission, id: nat)
    requires Placed(h) && Accounted(policy, h)
    ensures Accounted(policy, NextRequest(h, Arrive(id)).0)
  {
    hide Policy.Total;
    if id !in h.seen {
      AddedOne(h.reading, id);
    }
  }

  lemma BodyReadAccounts(policy: Policy, h: Admission, id: nat)
    requires Placed(h) && Accounted(policy, h)
    ensures Accounted(policy, NextRequest(h, BodyRead(id)).0)
  {
    hide Policy.Total;
    if id in h.reading {
      RemovedOne(h.reading, id);
      AddedOne(h.executing, id);
    }
  }

  lemma FinishAccounts(policy: Policy, h: Admission, id: nat)
    requires Placed(h) && Accounted(policy, h)
    ensures Accounted(policy, NextRequest(h, Finish(id)).0)
  {
    hide Policy.Total;
    if id in h.executing {
      RemovedOne(h.executing, id);
      AddedOne(h.replying, id);
      if |h.waiting| > 0 {
        assert h.waiting[0] in h.waiting;
        AddedOne(h.executing - {id}, h.waiting[0]);
      }
    }
  }

  lemma LeaveAccounts(policy: Policy, h: Admission, id: nat)
    requires Placed(h) && Accounted(policy, h)
    ensures Accounted(policy, NextRequest(h, Leave(id)).0)
  {
    hide Policy.Total;
    if id in h.reading {
      RemovedOne(h.reading, id);
    } else if id in h.waiting {
      WithoutRemoves(h.waiting, id);
    } else if id in h.replying {
      RemovedOne(h.replying, id);
    }
  }

  lemma StepAccounts(policy: Policy, h: Admission, step: RequestStep)
    requires Placed(h) && Accounted(policy, h)
    ensures Accounted(policy, NextRequest(h, step).0)
  {
    hide Policy.Total, Placed;
    match step {
      case Arrive(id) => ArriveAccounts(policy, h, id);
      case BodyRead(id) => BodyReadAccounts(policy, h, id);
      case Finish(id) => FinishAccounts(policy, h, id);
      case Leave(id) => LeaveAccounts(policy, h, id);
      case Stop =>
    }
  }

  lemma StepLimits(s: Server, step: NativeStep)
    requires Limited(s.policy, s.native)
    ensures Limited(s.policy, NextNative(s, step).0)
  {
    if step.CloseSocket? && step.socket in s.native.sockets {
      RemovedOne(s.native.sockets, step.socket);
    } else if step.End? && step.work in s.native.Live(step.engine) {
      RemovedOne(s.native.Live(step.engine), step.work);
    }
  }

  ghost predicate Sound(s: Server) {
    Placed(s.http) && Accounted(s.policy, s.http) && Limited(s.policy, s.native)
  }

  lemma StepKeeps(s: Server, event: Event)
    requires Sound(s)
    ensures Sound(Next(s, event).0) && Next(s, event).0.policy == s.policy
  {
    hide Placed, Accounted, Limited, NextRequest, NextNative;
    match event {
      case Http(step) =>
        StepPlaces(s.http, step);
        StepAccounts(s.policy, s.http, step);
      case Inside(step) => StepLimits(s, step);
    }
  }

  /** In every interleaving of every request, session, call and worker. */
  lemma {:induction false} AlwaysSound(policy: Policy, events: seq<Event>)
    ensures Sound(Run(policy, events)) && Run(policy, events).policy == policy
  {
    hide Next, Sound;
    if |events| == 0 {
      FreshIsSound(policy);
    } else {
      AlwaysSound(policy, events[..|events| - 1]);
      StepKeeps(Run(policy, events[..|events| - 1]), events[|events| - 1]);
    }
  }

  lemma FreshIsSound(policy: Policy)
    ensures Sound(Fresh(policy))
  {
  }

  lemma {:induction false} ElementsCount(queue: seq<nat>)
    requires forall i, j :: 0 <= i < j < |queue| ==> queue[i] != queue[j]
    ensures |Elements(queue)| == |queue|
  {
    if |queue| > 0 {
      var init, last := queue[..|queue| - 1], queue[|queue| - 1];
      ElementsCount(init);
      assert Elements(queue) == Elements(init) + {last};
    }
  }

  lemma DisjointCount<T>(a: set<T>, b: set<T>)
    requires a !! b
    ensures |a + b| == |a| + |b|
  {
  }

  lemma AdmittedCount(policy: Policy, h: Admission)
    requires Placed(h) && Accounted(policy, h)
    ensures |h.Admitted()| == policy.Total() - h.admissionFree
    ensures |h.Admitted() - h.executing| == |h.Admitted()| - |h.executing|
  {
    hide Policy.Total, Elements;
    WaitingApart(h);
    FourCount(h.reading, Elements(h.waiting), h.executing, h.replying);
  }

  lemma WaitingApart(h: Admission)
    requires Placed(h)
    ensures |Elements(h.waiting)| == |h.waiting|
    ensures Elements(h.waiting) !! h.reading && Elements(h.waiting) !! h.executing && Elements(h.waiting) !! h.replying
  {
    ElementsCount(h.waiting);
  }

  lemma FourCount(a: set<nat>, b: set<nat>, c: set<nat>, d: set<nat>)
    requires a !! b && a !! c && a !! d && b !! c && b !! d && c !! d
    ensures |a + b + c + d| == |a| + |b| + |c| + |d|
    ensures |(a + b + c + d) - c| == |a| + |b| + |d|
  {
    DisjointCount(a, b);
    DisjointCount(a + b, c);
    DisjointCount(a + b + c, d);
    DisjointCount(a + b, d);
    assert (a + b + c + d) - c == a + b + d;
  }

  // ---- What the policy promises

  /**
   * In every reachable state: the executing requests are admitted ones, at most the concurrency limit of them; the
   * admitted ones are at most that plus the queue capacity; when every slot executes, at most the queue capacity is
   * admitted besides; no request waits for a slot that is free; and once everyone has left, both semaphores are
   * full again.
   */
  lemma AdmissionIsBounded(policy: Policy, events: seq<Event>)
    ensures var h := Run(policy, events).http;
            && h.executing <= h.Admitted()
            && |h.executing| <= policy.maxConcurrent
            && |h.Admitted()| <= policy.maxConcurrent + policy.queueCapacity
            && (|h.executing| == policy.maxConcurrent ==> |h.Admitted() - h.executing| <= policy.queueCapacity)
            && (|h.waiting| > 0 ==> |h.executing| == policy.maxConcurrent)
            && (h.Admitted() == {} ==> h.admissionFree == policy.Total() && h.executionFree == policy.maxConcurrent)
  {
    hide Run, Next, Placed;
    AlwaysSound(policy, events);
    var h := Run(policy, events).http;
    AdmittedCount(policy, h);
    if h.Admitted() == {} {
      assert h.executing <= h.Admitted();
    }
  }

  /** A new request is answered "overloaded" exactly when every admission permit is taken. */
  lemma OverloadIsExact(policy: Policy, events: seq<Event>, id: nat)
    requires id !in Run(policy, events).http.seen && !Run(policy, events).http.stopping
    ensures var s := Run(policy, events);
            && (Next(s, Http(Arrive(id))).1 == Overloaded <==> |s.http.Admitted()| == policy.Total())
            && (Next(s, Http(Arrive(id))).1 == Reply.Admitted <==> |s.http.Admitted()| < policy.Total())
  {
    hide Run, Placed;
    AlwaysSound(policy, events);
    AdmittedCount(policy, Run(policy, events).http);
  }

  /**
   * At most the limit of native operations is live per engine in every reachable state, whoever started them and
   * whether or not anyone still waits for the answer; an engine refuses exactly when its limit is reached.
   */
  lemma NativeWorkIsBounded(policy: Policy, events: seq<Event>, engine: Engine, work: Operation)
    ensures var s := Run(policy, events);
            && s.native.Active(engine) == |s.native.Live(engine)| <= policy.maxConcurrent
            && |s.native.sockets| <= policy.maxConcurrent
            && (work !in s.native.Live(engine) ==>
                  (Next(s, Inside(Begin(engine, work))).1 == Busy
                   <==> |s.native.Live(engine)| == policy.maxConcurrent))
  {
    hide Run, Placed, Accounted;
    AlwaysSound(policy, events);
  }

  /** Requests that wait for a slot get it in the order in which they began to wait. */
  lemma NoOvertaking(policy: Policy, events: seq<Event>, event: Event, i: nat, j: nat)
    requires i < j < |Run(policy, events).http.waiting|
    ensures var before, after := Run(policy, events).http, Next(Run(policy, events), event).0.http;
            && before.waiting[j] !in after.executing
            && (before.waiting[i] in after.waiting && before.waiting[j] in after.waiting ==>
                  exists k, l :: 0 <= k < l < |after.waiting| && after.waiting[k] == before.waiting[i]
                                 && after.waiting[l] == before.waiting[j])
  {
    hide Run, Accounted, Limited;
    AlwaysSound(policy, events);
    var h := Run(policy, events).http;
    var after := Next(Run(policy, events), event).0.http;
    if event.Http? && event.request.Finish? && event.request.id in h.executing {
      assert i > 0 ==> after.waiting[i - 1] == h.waiting[i] && after.waiting[j - 1] == h.waiting[j];
    } else if event.Http? && event.request.Leave? && event.request.id !in h.reading && event.request.id in h.waiting {
      WithoutKeepsOrder(h.waiting, event.request.id, i, j);
    } else {
      assert after.waiting[i] == h.waiting[i] && after.waiting[j] == h.waiting[j];
    }
  }

  lemma {:induction false} WithoutKeepsOrder(queue: seq<nat>, id: nat, i: nat, j: nat)
    requires i < j < |queue|
    requires forall i, j :: 0 <= i < j < |queue| ==> queue[i] != queue[j]
    ensures var rest := Without(queue, id);
            queue[i] in rest && queue[j] in rest ==>
              exists k, l :: 0 <= k < l < |rest| && rest[k] == queue[i] && rest[l] == queue[j]
  {
    var rest := Without(queue, id);
    var tail := queue[1..];
    if queue[0] == id {
      assert i > 0 ==> tail[i - 1] == queue[i] && tail[j - 1] == queue[j];
      assert i == 0 ==> queue[i] !in tail;
    } else if queue[j] in rest {
      assert rest == [queue[0]] + Without(tail, id);
      if i > 0 && queue[i] in rest {
        WithoutKeepsOrder(tail, id, i - 1, j - 1);
        var shorter := Without(tail, id);
        var k, l :| 0 <= k < l < |shorter| && shorter[k] == tail[i - 1] && shorter[l] == tail[j - 1];
        assert rest[k + 1] == queue[i] && rest[l + 1] == queue[j];
      } else if i == 0 {
        var l :| 0 <= l < |rest| && rest[l] == queue[j];
        assert rest[0] == queue[0] && l > 0;
      }
    }
  }

  // ---- Why the limiter is needed

  /** The life of a request that starts a recognition and leaves at its deadline while it still runs. */
  function Abandon(id: nat): seq<Event> {
    [Http(Arrive(id)), Http(BodyRead(id)), Inside(Begin(Stt, Operation(FromRequest(id), 0))), Http(Finish(id)),
     Http(Leave(id))]
  }

  function Abandoned(n: nat): seq<Event> {
    if n == 0 then [] else Abandoned(n - 1) + Abandon(n - 1)
  }

  function AbandonedWork(n: nat): set<Operation> {
    if n == 0 then {} else AbandonedWork(n - 1) + {Operation(FromRequest(n - 1), 0)}
  }

  lemma {:induction false} AbandonedWorkIs(n: nat, id: nat)
    ensures Operation(FromRequest(id), 0) in AbandonedWork(n) <==> id < n
  {
    if n > 0 {
      AbandonedWorkIs(n - 1, id);
    }
  }

  /** Nobody is in the middleware and both semaphores are full. */
  ghost predicate Idle(policy: Policy, h: Admission) {
    && h.waiting == [] && h.reading == {} && h.executing == {} && h.replying == {}
    && h.admissionFree == policy.Total() && h.executionFree == policy.maxConcurrent
    && !h.stopping
  }

  lemma AbandonOne(policy: Policy, events: seq<Event>, id: nat)
    requires var s := Run(policy, events);
             && Idle(policy, s.http) && id !in s.http.seen && s.policy == policy
             && Operation(FromRequest(id), 0) !in s.native.stt && 0 <= s.native.sttActive < policy.maxConcurrent
    ensures var s, t := Run(policy, events), Run(policy, events + Abandon(id));
            && Idle(policy, t.http) && t.http.seen == s.http.seen + {id} && t.policy == policy
            && t.native == s.native.(stt := s.native.stt + {Operation(FromRequest(id), 0)},
                                     sttActive := s.native.sttActive + 1)
  {
    hide Run;
    var life := Abandon(id);
    var none: set<nat> := {};
    assert none + {id} - {id} == none;
    RunSnoc(policy, events, life[0]);
    RunSnoc(policy, events + life[..1], life[1]);
    RunSnoc(policy, events + life[..2], life[2]);
    RunSnoc(policy, events + life[..3], life[3]);
    RunSnoc(policy, events + life[..4], life[4]);
    assert events + life[..1] == events + [life[0]];
    assert events + life[..2] == events + life[..1] + [life[1]];
    assert events + life[..3] == events + life[..2] + [life[2]];
    assert events + life[..4] == events + life[..3] + [life[3]];
    assert events + life == events + life[..4] + [life[4]];
  }

  /**
   * Native work outlives its requests: after `n` abandoned requests both semaphores are full and `n` recognitions
   * run. The semaphores alone would let any number pile up; at the limit the engine refuses the work of the next
   * request that they admit.
   */
  lemma {:induction false} WorkOutlivesRequests(policy: Policy, n: nat)
    requires n <= policy.maxConcurrent
    ensures var s := Run(policy, Abandoned(n));
            && Idle(policy, s.http) && (forall id :: id in s.http.seen ==> id < n) && s.policy == policy
            && s.native.stt == AbandonedWork(n) && s.native.sttActive == n
  {
    hide Run, Idle, Abandon;
    if n == 0 {
      NothingAbandoned(policy);
    } else {
      WorkOutlivesRequests(policy, n - 1);
      AbandonedWorkIs(n - 1, n - 1);
      AbandonOne(policy, Abandoned(n - 1), n - 1);
    }
  }

  lemma NothingAbandoned(policy: Policy)
    ensures Run(policy, []) == Fresh(policy) && Idle(policy, Fresh(policy).http)
  {
  }

  /**
   * Requests still reading their bodies hold admission permits too, so the requests that do not execute may be more
   * than the queue capacity: exactly as many more as there are free execution slots.
   */
  lemma OthersExceedQueue(policy: Policy, events: seq<Event>)
    requires policy.maxConcurrent + policy.queueCapacity <= U64_MAX
    ensures var h := Run(policy, events).http;
            |h.Admitted() - h.executing| == policy.queueCapacity + h.executionFree - h.admissionFree
  {
    hide Run, Placed;
    AlwaysSound(policy, events);
    AdmittedCount(policy, Run(policy, events).http);
  }

  function Arrivals(n: nat): seq<Event> {
    if n == 0 then [] else Arrivals(n - 1) + [Http(Arrive(n - 1))]
  }

  /** With enough arrivals whose bodies are still being read, more requests than the queue holds do not execute. */
  lemma {:induction false} ReadersFill(policy: Policy, n: nat)
    requires n <= policy.Total()
    ensures var h := Run(policy, Arrivals(n)).http;
            && !h.stopping && (forall id :: id in h.seen ==> id < n)
            && |h.reading| == n && h.waiting == [] && h.executing == {} && h.replying == {}
            && h.admissionFree == policy.Total() - n
  {
    hide Policy.Total, Run;
    if n == 0 {
      NothingAbandoned(policy);
      assert Arrivals(0) == [];
    } else {
      ReadersFill(policy, n - 1);
      RunSnoc(policy, Arrivals(n - 1), Http(Arrive(n - 1)));
      PlacedIsSeen(policy, Arrivals(n - 1), n - 1);
      AddedOne(Run(policy, Arrivals(n - 1)).http.reading, n - 1);
    }
  }

  lemma PlacedIsSeen(policy: Policy, events: seq<Event>, id: nat)
    ensures id !in Run(policy, events).http.seen ==> id !in Run(policy, events).http.reading
  {
    hide Run;
    AlwaysSound(policy, events);
  }

  /** Unless the sum overflows, the admission semaphore has a permit for each slot and each place in the queue. */
  lemma TotalIsSum(policy: Policy)
    ensures policy.maxConcurrent + policy.queueCapacity <= 0xFFFF_FFFF_FFFF_FFFF ==>
              policy.Total() == policy.maxConcurrent + policy.queueCapacity
    ensures policy.maxConcurrent + policy.queueCapacity > 0xFFFF_FFFF_FFFF_FFFF ==>
              policy.Total() == 0xFFFF_FFFF_FFFF_FFFF
  {
  }

  /** So the queue capacity is not a bound on the requests that do not execute: here is a run that exceeds it. */
  lemma QueueIsExceeded(policy: Policy)
    requires 0 < policy.maxConcurrent && policy.Total() == policy.maxConcurrent + policy.queueCapacity
    ensures var h := Run(policy, Arrivals(policy.Total())).http;
            |h.Admitted() - h.executing| == policy.queueCapacity + policy.maxConcurrent > policy.queueCapacity
  {
    hide Run, Policy.Total;
    ReadersFill(policy, policy.Total());
    AlwaysSound(policy, Arrivals(policy.Total()));
    AdmittedCount(policy, Run(policy, Arrivals(policy.Total())).http);
  }

  // ---- A request's way through, and the end of the server

  /**
   * A request that arrives when there is room is admitted; once its body is read it executes at once if a slot is free,
   * and else waits behind those that wait; when it has finished it replies, and when it leaves its permit is free again.
   */
  lemma RequestGoesThrough(policy: Policy, events: seq<Event>, id: nat)
    requires var h := Run(policy, events).http; id !in h.seen && !h.stopping && h.admissionFree > 0
    ensures var before := Run(policy, events).http;
            var arrived := Run(policy, events + [Http(Arrive(id))]).http;
            var hasRead := Run(policy, events + [Http(Arrive(id))] + [Http(BodyRead(id))]).http;
            && arrived == before.(seen := before.seen + {id}, reading := before.reading + {id},
                                  admissionFree := before.admissionFree - 1)
            && (before.executionFree > 0 ==> id in hasRead.executing && hasRead.waiting == before.waiting)
            && (before.executionFree == 0 ==> hasRead.waiting == before.waiting + [id] && id !in hasRead.executing)
            && id !in hasRead.reading
  {
    hide Run, Placed, Accounted;
    AlwaysSound(policy, events);
    PlacedApart(Run(policy, events).http, id);
    RunSnoc(policy, events, Http(Arrive(id)));
    RunSnoc(policy, events + [Http(Arrive(id))], Http(BodyRead(id)));
  }

  lemma PlacedApart(h: Admission, id: nat)
    requires Placed(h) && id !in h.seen
    ensures id !in h.reading && id !in h.executing && id !in h.replying && id !in h.waiting
  {
  }

  /** A request that finishes frees its slot for the one that has waited longest, and one that leaves its permit. */
  lemma RequestLeaves(policy: Policy, events: seq<Event>, id: nat)
    ensures var before := Run(policy, events).http;
            var finished := Run(policy, events + [Http(Finish(id))]).http;
            var left := Run(policy, events + [Http(Leave(id))]).http;
            && (id in before.executing ==>
                  && id in finished.replying && id !in finished.executing
                  && (if before.waiting == [] then finished.executionFree == before.executionFree + 1
                      else before.waiting[0] in finished.executing && finished.waiting == before.waiting[1..]))
            && (id in before.reading || id in before.waiting || id in before.replying ==>
                  && left.Admitted() == before.Admitted() - {id}
                  && left.admissionFree == before.admissionFree + 1
                  && left.executing == before.executing)
  {
    hide Run, Accounted, Policy.Total, Limited;
    AlwaysSound(policy, events);
    RunSnoc(policy, events, Http(Finish(id)));
    RunSnoc(policy, events, Http(Leave(id)));
    var h := Run(policy, events).http;
    if id !in h.reading && id in h.waiting {
      WithoutRemoves(h.waiting, id);
    }
  }

  /** A server that has been told to stop admits nobody, and answers every new request "cancelled". */
  lemma {:induction false} StoppingAdmitsNobody(policy: Policy, events: seq<Event>, more: seq<Event>)
    ensures var before, after := Run(policy, events + [Http(Stop)]).http, Run(policy, events + [Http(Stop)] + more).http;
            && after.stopping
            && after.Admitted() <= before.Admitted()
            && forall id :: id !in after.seen ==>
                 Next(Run(policy, events + [Http(Stop)] + more), Http(Arrive(id))).1 == Cancelled
  {
    hide Run, Elements;
    var stopped := events + [Http(Stop)];
    if more == [] {
      RunSnoc(policy, events, Http(Stop));
      assert stopped + more == stopped;
    } else {
      var init, last := more[..|more| - 1], more[|more| - 1];
      StoppingAdmitsNobody(policy, events, init);
      RunSnoc(policy, stopped + init, last);
      assert stopped + init + [last] == stopped + more;
      StoppedStep(policy, stopped + init, last);
    }
  }

  lemma StoppedStep(policy: Policy, events: seq<Event>, event: Event)
    requires Run(policy, events).http.stopping
    ensures var after := Next(Run(policy, events), event).0.http;
            after.stopping && after.Admitted() <= Run(policy, events).http.Admitted()
  {
    hide Run, Accounted, Limited, NextNative;
    AlwaysSound(policy, events);
    var h := Run(policy, events).http;
    if event.Http? && event.request.Leave? && event.request.id in h.waiting {
      WithoutRemoves(h.waiting, event.request.id);
    }
  }

  /** Sessions and native work: what opens or begins is there, and what closes or ends is gone, with its permit. */
  lemma NativeLifecycle(policy: Policy, events: seq<Event>, engine: Engine, work: Operation, id: nat, socket: nat)
    ensures var before := Run(policy, events);
            var begun := Run(policy, events + [Inside(Begin(engine, work))]).native;
            var ended := Run(policy, events + [Inside(End(engine, work))]).native;
            && (work !in before.native.Live(engine) && |before.native.Live(engine)| < policy.maxConcurrent ==>
                  begun.Live(engine) == before.native.Live(engine) + {work})
            && ended.Live(engine) == before.native.Live(engine) - {work}
            && ended.Active(engine) == |ended.Live(engine)|
    ensures var before := Run(policy, events);
            var joined := Run(policy, events + [Inside(OpenSocket(id, socket))]).native;
            var closed := Run(policy, events + [Inside(CloseSocket(socket))]).native;
            && (id in before.http.executing && |before.native.sockets| < policy.maxConcurrent ==>
                  joined.sockets == before.native.sockets + {socket})
            && (id !in before.http.executing ==> joined.sockets == before.native.sockets)
            && closed.sockets == before.native.sockets - {socket}
  {
    hide Run, Placed, Accounted;
    AlwaysSound(policy, events);
    AlwaysSound(policy, events + [Inside(End(engine, work))]);
    RunSnoc(policy, events, Inside(Begin(engine, work)));
    RunSnoc(policy, events, Inside(End(engine, work)));
    RunSnoc(policy, events, Inside(OpenSocket(id, socket)));
    RunSnoc(policy, events, Inside(CloseSocket(socket)));
  }
}
