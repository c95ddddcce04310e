/** The engines' lock-free permit counter, one atomic memory operation at a time. */
module LimiterSteps {
  /**
   * The counter, the value each thread inside `fetch_update` has loaded, and the threads that hold a permit. The
   * counter is an integer: that it never goes below zero is proved, not assumed.
   */
  datatype Counter = Counter(maximum: nat, active: int, loaded: map<nat, int>, holding: set<nat>)

  datatype Step =
    | Load(thread: nat)
    | CompareExchange(thread: nat)
    | SpuriousFailure(thread: nat)
    | Release(thread: nat)

  datatype Answer = NoAnswer | Acquired | Refused

  function Start(maximum: nat): Counter {
    Counter(maximum, 0, map[], {})
  }

  /** `fetch_update` looks at the current value: go on with it, or give up when it has reached the maximum. */
  function Look(c: Counter, thread: nat): (Counter, Answer) {
    if c.active < c.maximum then (c.(loaded := c.loaded[thread := c.active]), NoAnswer)
    else (c.(loaded := c.loaded - {thread}), Refused)
  }

  /**
   * One atomic operation of one thread, with the answer of `acquire` if this operation decides it. The exchange is the
   * weak one: it may also fail although the counter is as it was loaded.
   */
  function Next(c: Counter, step: Step): (Counter, Answer) {
    match step
    case Load(t) => if t in c.loaded || t in c.holding then (c, NoAnswer) else Look(c, t)
    case CompareExchange(t) =>
      if t !in c.loaded then (c, NoAnswer)
      else if c.active == c.loaded[t] then
        (c.(active := c.loaded[t] + 1, loaded := c.loaded - {t}, holding := c.holding + {t}), Acquired)
      else Look(c, t)
    case SpuriousFailure(t) => if t !in c.loaded then (c, NoAnswer) else Look(c, t)
    case Release(t) =>
      if t !in c.holding then (c, NoAnswer) else (c.(active := c.active - 1, holding := c.holding - {t}), NoAnswer)
  }

  /** The counter is the number of live permits and never exceeds the maximum. */
  ghost predicate Bounded(c: Counter) {
    && c.active == |c.holding| <= c.maximum
    && forall t :: t in c.loaded ==> t !in c.holding && 0 <= c.loaded[t] < c.maximum
  }

  /** The simple form: a counter that tests and increments in one step. */
  function AtomicAcquire(maximum: nat, active: int): (int, Answer) {
    if active < maximum then (active + 1, Acquired) else (active, Refused)
  }

  /**
   * Whatever the other threads did between the load and the exchange, the step that answers does to the counter
   * exactly what an atomic test-and-increment would do at that moment; no other step of an acquisition changes it.
   */
  lemma AnswersAreAtomic(c: Counter, step: Step)
    requires Bounded(c)
    ensures Bounded(Next(c, step).0)
    ensures var (after, answer) := Next(c, step);
            && (answer.NoAnswer? && !step.Release? ==> after.active == c.active && after.holding == c.holding)
            && (!answer.NoAnswer? ==> (after.active, answer) == AtomicAcquire(c.maximum, c.active))
            && (answer.Acquired? ==> after.holding == c.holding + {step.thread} && step.thread !in c.holding)
            && (answer.Refused? ==> after.holding == c.holding && |c.holding| == c.maximum)
            && (step.Release? && step.thread in c.holding ==> after.active == c.active - 1 >= 0)
  {
    if step.Release? && step.thread in c.holding {
      assert |c.holding - {step.thread}| == |c.holding| - 1;
    }
  }

  function Run(maximum: nat, steps: seq<Step>): Counter {
    if |steps| == 0 then Start(maximum) else Next(Run(maximum, steps[..|steps| - 1]), steps[|steps| - 1]).0
  }

  /** In every interleaving, at every moment. */
  lemma {:induction false} AlwaysBounded(maximum: nat, steps: seq<Step>)
    ensures Bounded(Run(maximum, steps)) && Run(maximum, steps).maximum == maximum
  {
    if |steps| > 0 {
      AlwaysBounded(maximum, steps[..|steps| - 1]);
      AnswersAreAtomic(Run(maximum, steps[..|steps| - 1]), steps[|steps| - 1]);
    }
  }
}
