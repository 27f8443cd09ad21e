/** Firing an event (`callEvent`): one pass over the registrations of the
    event's handler list, re-reading the cancelled flag before each one and
    containing every throwable an executor raises. */
module Dispatcher {
  import opened Wrappers
  import opened Events
  import opened Hierarchy
  import opened Executors

  /** What happened at one registration's turn: the flag before and after it,
      whether its executor was invoked, and what that executor threw, if anything. */
  datatype Turn = Turn(reg: Registration, before: bool, invoked: bool, after: bool, failure: Option<Throwable>)

  /** The result of a dispatch: the event handed back to the caller, one turn per
      registration, and the log written on the way. */
  datatype Fired = Fired(event: Event, trace: seq<Turn>, log: seq<LogEntry>)

  /** One iteration of the dispatch loop, given the event as it stands when the
      registration's turn comes. */
  function TakeTurn(t: ClassTable, reg: Registration, ev: Event, run: (Code, Event) -> HandlerOutcome): (turn: Turn)
    requires Valid(t)
    ensures turn.reg == reg && turn.before == ev.cancelled
    ensures turn.invoked <==> !ev.cancelled || reg.order.ignoresCancelled
    ensures !turn.invoked ==> turn.after == ev.cancelled && turn.failure.None?
    ensures turn.invoked ==> turn.after == Execute(t, reg.executor, ev, run).cancelled
    ensures turn.failure.Some? <==> turn.invoked && Execute(t, reg.executor, ev, run).Raised?
  {
    if !ev.cancelled || reg.order.ignoresCancelled then
      match Execute(t, reg.executor, ev, run)
      case Returned(c) => Turn(reg, ev.cancelled, true, c, None)
      case Raised(c, e) => Turn(reg, ev.cancelled, true, c, Some(e))
    else
      Turn(reg, ev.cancelled, false, ev.cancelled, None)
  }

  /** The cancelled flag as it stands before turn `k` of a trace (after the last
      turn when `k == |trace|`). */
  function CancelledAt(ev: Event, trace: seq<Turn>, k: nat): bool
    requires k <= |trace|
  {
    if k == 0 then ev.cancelled else trace[k - 1].after
  }

  /** The log a trace produces: one entry naming the event and the owner for
      every turn whose executor threw, in turn order. */
  function FailureLog(cls: ClassId, trace: seq<Turn>): (log: seq<LogEntry>)
    ensures |log| <= |trace|
    ensures forall e :: e in log ==> e.CouldNotPass? && e.eventClass == cls
    ensures log == [] <==> forall i :: 0 <= i < |trace| ==> trace[i].failure.None?
    ensures forall i :: 0 <= i < |trace| && trace[i].failure.Some? ==> CouldNotPass(cls, trace[i].reg.owner) in log
  {
    if trace == [] then []
    else
      var last := trace[|trace| - 1];
      FailureLog(cls, trace[..|trace| - 1])
        + (if last.failure.Some? then [CouldNotPass(cls, last.reg.owner)] else [])
  }

  /** The turns of `trace` whose executor threw. */
  function Failing(trace: seq<Turn>): set<nat> {
    set i: nat | i < |trace| && trace[i].failure.Some?
  }

  /** The log holds exactly one entry per throwing turn. */
  lemma {:induction false} FailureLogCount(cls: ClassId, trace: seq<Turn>)
    ensures |FailureLog(cls, trace)| == |Failing(trace)|
  {
    if trace != [] {
      var n := |trace| - 1;
      FailureLogCount(cls, trace[..n]);
      FailingSnoc(trace);
    }
  }

  /** Extending a trace by one turn adds that turn to the failing ones exactly
      when it threw. */
  lemma FailingSnoc(trace: seq<Turn>)
    requires trace != []
    ensures var n := |trace| - 1;
            && n !in Failing(trace[..n])
            && Failing(trace) == Failing(trace[..n]) + (if trace[n].failure.Some? then {n} else {})
  {
    var n := |trace| - 1;
    var front := trace[..n];
    assert forall i :: 0 <= i < n ==> front[i] == trace[i];
  }

  /** The log is written in turn order: the log of the first `i` turns is a
      prefix of the whole log, and a throwing turn's entry comes right after the
      entries of the turns before it. */
  lemma {:induction false} FailureLogInOrder(cls: ClassId, trace: seq<Turn>, i: nat)
    requires i < |trace|
    ensures FailureLog(cls, trace[..i]) <= FailureLog(cls, trace)
    ensures trace[i].failure.Some? ==>
              FailureLog(cls, trace[..i + 1]) == FailureLog(cls, trace[..i]) + [CouldNotPass(cls, trace[i].reg.owner)]
    decreases |trace|
  {
    var n := |trace| - 1;
    var front := trace[..n];
    var whole := FailureLog(cls, trace);
    assert whole == FailureLog(cls, front) + whole[|FailureLog(cls, front)|..];
    if i < n {
      FailureLogInOrder(cls, front, i);
      assert front[..i] == trace[..i] && front[..i + 1] == trace[..i + 1];
    } else {
      assert trace[..i] == front && trace[..i + 1] == trace;
    }
  }

  /** The reference definition of a dispatch over `ls`: every registration gets
      exactly one turn, in array order; each turn sees the flag the previous turn
      left; the returned event is the one given, carrying the final flag; and the
      log holds one entry per executor that threw. */
  ghost predicate Delivered(t: ClassTable, ls: seq<Registration>, ev: Event,
                            run: (Code, Event) -> HandlerOutcome, f: Fired)
    requires Valid(t)
  {
    && |f.trace| == |ls|
    && (forall i {:trigger ls[i]} :: 0 <= i < |ls| ==>
          f.trace[i] == TakeTurn(t, ls[i], Event(ev.cls, CancelledAt(ev, f.trace, i)), run))
    && f.event == Event(ev.cls, CancelledAt(ev, f.trace, |ls|))
    && f.log == FailureLog(ev.cls, f.trace)
  }

  /** `callEvent`: a missing handler array invokes nothing and returns the event
      untouched; otherwise the loop visits every registration and invokes it iff,
      at its turn, the event is not cancelled or its order ignores cancellation.
      A throwing executor is logged and the loop carries on; the caller always
      gets its event back. */
  method CallEvent(t: ClassTable, ev: Event, listeners: Option<seq<Registration>>,
                   run: (Code, Event) -> HandlerOutcome) returns (f: Fired)
    requires Valid(t)
    ensures f.event.cls == ev.cls
    ensures listeners.None? ==> f == Fired(ev, [], [])
    ensures listeners.Some? ==> Delivered(t, listeners.value, ev, run, f)
  {
    if listeners.None? {
      return Fired(ev, [], []);
    }
    var ls := listeners.value;
    var cur := ev;
    var trace: seq<Turn> := [];
    var log: seq<LogEntry> := [];
    var i := 0;
    while i < |ls|
      invariant 0 <= i <= |ls|
      invariant |trace| == i
      invariant cur == Event(ev.cls, CancelledAt(ev, trace, i))
      invariant forall j {:trigger ls[j]} :: 0 <= j < i ==>
                  trace[j] == TakeTurn(t, ls[j], Event(ev.cls, CancelledAt(ev, trace, j)), run)
      invariant log == FailureLog(ev.cls, trace)
    {
      var turn := TakeTurn(t, ls[i], cur, run);
      if turn.failure.Some? {
        log := log + [CouldNotPass(ev.cls, ls[i].owner)];
      }
      var next := trace + [turn];
      assert next[..i] == trace;
      assert forall j :: 0 <= j <= i ==> CancelledAt(ev, next, j) == CancelledAt(ev, trace, j);
      trace := next;
      cur := Event(ev.cls, turn.after);
      i := i + 1;
    }
    f := Fired(cur, trace, log);
  }

  /** A dispatch is determined by its inputs: two results that both meet the
      reference definition are equal. */
  lemma {:induction false} DeliveredUnique(t: ClassTable, ls: seq<Registration>, ev: Event,
                                           run: (Code, Event) -> HandlerOutcome, f1: Fired, f2: Fired)
    requires Valid(t)
    requires Delivered(t, ls, ev, run, f1) && Delivered(t, ls, ev, run, f2)
    ensures f1 == f2
  {
    SameTurns(t, ls, ev, run, f1, f2, |ls|);
    assert f1.trace == f2.trace;
  }

  lemma {:induction false} SameTurns(t: ClassTable, ls: seq<Registration>, ev: Event,
                                     run: (Code, Event) -> HandlerOutcome, f1: Fired, f2: Fired, n: nat)
    requires Valid(t)
    requires Delivered(t, ls, ev, run, f1) && Delivered(t, ls, ev, run, f2)
    requires n <= |ls|
    ensures forall j :: 0 <= j < n ==> f1.trace[j] == f2.trace[j]
  {
    if n > 0 {
      SameTurns(t, ls, ev, run, f1, f2, n - 1);
      assert CancelledAt(ev, f1.trace, n - 1) == CancelledAt(ev, f2.trace, n - 1);
      var flag := Event(ev.cls, CancelledAt(ev, f1.trace, n - 1));
      assert f1.trace[n - 1] == TakeTurn(t, ls[n - 1], flag, run) == f2.trace[n - 1];
    }
  }

  /** Once the event is cancelled at turn `k`, it stays cancelled at every later
      turn as long as no handler whose order ignores cancellation un-cancels it. */
  lemma {:induction false} StaysCancelled(t: ClassTable, ls: seq<Registration>, ev: Event,
                                          run: (Code, Event) -> HandlerOutcome, f: Fired, k: nat, i: nat)
    requires Valid(t)
    requires Delivered(t, ls, ev, run, f)
    requires k <= i <= |ls| && CancelledAt(ev, f.trace, k)
    requires forall j :: k <= j < |ls| && ls[j].order.ignoresCancelled ==>
               Execute(t, ls[j].executor, Event(ev.cls, true), run).cancelled
    ensures CancelledAt(ev, f.trace, i)
    decreases i
  {
    if i > k {
      StaysCancelled(t, ls, ev, run, f, k, i - 1);
      assert f.trace[i - 1] == TakeTurn(t, ls[i - 1], Event(ev.cls, true), run);
    }
  }

  /** A cancel sticks: under the same conditions, every registration from turn
      `k` on runs exactly when its order ignores cancellation, and the event
      comes back cancelled. With `k = 0` this is firing an already cancelled
      event; with `k > 0` it is a cancel by an earlier handler suppressing the
      later ones. */
  lemma CancelSticks(t: ClassTable, ls: seq<Registration>, ev: Event,
                     run: (Code, Event) -> HandlerOutcome, f: Fired, k: nat, i: nat)
    requires Valid(t)
    requires Delivered(t, ls, ev, run, f)
    requires k <= i < |ls| && CancelledAt(ev, f.trace, k)
    requires forall j :: k <= j < |ls| && ls[j].order.ignoresCancelled ==>
               Execute(t, ls[j].executor, Event(ev.cls, true), run).cancelled
    ensures f.trace[i].invoked <==> ls[i].order.ignoresCancelled
    ensures f.event.cancelled
  {
    StaysCancelled(t, ls, ev, run, f, k, i);
    assert f.trace[i] == TakeTurn(t, ls[i], Event(ev.cls, true), run);
    StaysCancelled(t, ls, ev, run, f, k, |ls|);
  }

  /** Failure isolation: of three registrations on an uncancelled event where
      none cancels and only the middle executor throws, all three are invoked,
      exactly one entry naming the middle owner is logged, and the event comes
      back uncancelled. */
  lemma MiddleFailureIsolated(t: ClassTable, a: Registration, b: Registration, c: Registration, ev: Event,
                              run: (Code, Event) -> HandlerOutcome, f: Fired)
    requires Valid(t) && !ev.cancelled
    requires Delivered(t, [a, b, c], ev, run, f)
    requires Execute(t, a.executor, ev, run) == Returned(false)
    requires Execute(t, b.executor, ev, run).Raised? && !Execute(t, b.executor, ev, run).cancelled
    requires Execute(t, c.executor, ev, run) == Returned(false)
    ensures f.trace[0].invoked && f.trace[1].invoked && f.trace[2].invoked
    ensures f.log == [CouldNotPass(ev.cls, b.owner)]
    ensures f.event == ev
  {
    var ls := [a, b, c];
    assert ls[0] == a && ls[1] == b && ls[2] == c;
    assert f.trace[0] == TakeTurn(t, a, ev, run);
    assert f.trace[1] == TakeTurn(t, b, ev, run);
    assert f.trace[2] == TakeTurn(t, c, ev, run);
    var tr := f.trace;
    assert tr[..2][..1] == tr[..1] && tr[..1][..0] == [];
    assert FailureLog(ev.cls, tr[..1]) == [];
    assert FailureLog(ev.cls, tr[..2]) == [CouldNotPass(ev.cls, b.owner)];
    assert tr[..3] == tr;
  }
}
