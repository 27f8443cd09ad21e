/** The anonymous `EventExecutor` that handler discovery wraps around every
    handler method. */
module Executors {
  import opened Wrappers
  import opened Events
  import opened Hierarchy

  /** Running an executor on an event. A generated executor first checks that
      the event's runtime class is a subtype of the handler's parameter class and
      throws `EventException("Wrong event type…")` otherwise; that throw happens
      inside its own `try`, so it is caught and wrapped once more. When the class
      matches it calls the handler method reflectively; `Method.invoke` wraps
      whatever the method throws in an `InvocationTargetException`, which the
      executor wraps in an `EventException`. A supplied executor is simply run.
      `run` gives the behaviour of the code the bus cannot see. */
  function Execute(t: ClassTable, ex: Executor, ev: Event, run: (Code, Event) -> HandlerOutcome): (r: HandlerOutcome)
    requires Valid(t)
    ensures ex.Generated? && !IsSubclass(t, ev.cls, ex.checkClass) ==>
              r == Raised(ev.cancelled, EventException(WrongEventType))
    ensures ex.Generated? && IsSubclass(t, ev.cls, ex.checkClass) ==>
              && r.cancelled == run(ex.handler, ev).cancelled
              && (r.Raised? <==> run(ex.handler, ev).Raised?)
              && (r.Raised? ==> r.error == EventException(InvocationTarget(run(ex.handler, ev).error)))
    ensures ex.Generated? && r.Raised? ==> r.error.EventException?
    ensures ex.Supplied? ==> r == run(ex.code, ev)
  {
    match ex
    case Supplied(code) => run(code, ev)
    case Generated(checkClass, handler) =>
      if !IsSubclass(t, ev.cls, checkClass) then
        Raised(ev.cancelled, EventException(WrongEventType))
      else
        match run(handler, ev)
        case Returned(c) => Returned(c)
        case Raised(c, e) => Raised(c, EventException(InvocationTarget(e)))
  }

  /** A generated executor never reaches its handler with an event of the wrong
      class: on a mismatch the outcome is the same whatever the handler would do. */
  lemma MismatchNeverCallsHandler(t: ClassTable, ex: Executor, ev: Event,
                                  run1: (Code, Event) -> HandlerOutcome, run2: (Code, Event) -> HandlerOutcome)
    requires Valid(t)
    requires ex.Generated? && !IsSubclass(t, ev.cls, ex.checkClass)
    ensures Execute(t, ex, ev, run1) == Execute(t, ex, ev, run2)
  {
  }

  /** When the classes match, the generated executor forwards to the handler:
      whatever the handler throws comes back as an `EventException` around the
      `InvocationTargetException` of the reflective call, and a normal return
      passes through unchanged. A convenience corollary of `Execute`'s contract,
      stated in terms of the handler's own outcome. */
  lemma MatchForwardsToHandler(t: ClassTable, ex: Executor, ev: Event, run: (Code, Event) -> HandlerOutcome)
    requires Valid(t)
    requires ex.Generated? && IsSubclass(t, ev.cls, ex.checkClass)
    ensures run(ex.handler, ev).Returned? ==> Execute(t, ex, ev, run) == run(ex.handler, ev)
    ensures run(ex.handler, ev).Raised? ==>
              Execute(t, ex, ev, run) == Raised(run(ex.handler, ev).cancelled, EventException(InvocationTarget(run(ex.handler, ev).error)))
  {
  }
}
