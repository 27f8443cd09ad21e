/** The vocabulary of the event bus: the class table that stands in for Java
    reflection, events, handler orders, registrations, throwables and log entries. */
module Events {
  import opened Wrappers

  type ClassId = nat
  type OwnerId = nat
  type ListenerId = nat

  /** One loaded class: its superclass (None for a class without one), whether it
      declares a static `getHandlerList` method itself, and the length of its
      superclass chain, which makes walks up the hierarchy terminate. */
  datatype ClassInfo = ClassInfo(parent: Option<ClassId>, declaresHandlerList: bool, depth: nat)

  /** The loaded classes, together with the identity of the root `Event` class. */
  datatype ClassTable = ClassTable(classes: map<ClassId, ClassInfo>, eventRoot: ClassId)

  /** A class table the JVM could have produced: the root `Event` class is loaded,
      and every superclass is loaded and strictly shallower than its subclass, so
      the hierarchy is acyclic. */
  predicate Valid(t: ClassTable) {
    && t.eventRoot in t.classes
    && forall c {:trigger ParentBelow(t, c)} :: c in t.classes ==> ParentBelow(t, c)
  }

  /** The superclass of `c`, if any, is loaded and strictly shallower than `c`. */
  predicate ParentBelow(t: ClassTable, c: ClassId)
    requires c in t.classes
  {
    t.classes[c].parent.Some? ==>
      && t.classes[c].parent.value in t.classes
      && t.classes[t.classes[c].parent.value].depth < t.classes[c].depth
  }

  /** Whether class `c` itself declares `getHandlerList`. */
  predicate Declares(t: ClassTable, c: ClassId)
    requires c in t.classes
  {
    t.classes[c].declaresHandlerList
  }

  /** A fired event: its runtime class (fixed at creation) and its mutable
      cancelled flag. */
  datatype Event = Event(cls: ClassId, cancelled: bool)

  /** A handler priority. Its tier is only an identifier here (ordering by tier
      happens inside the handler list); `ignoresCancelled` is the one attribute
      the event manager consults. */
  datatype Order = Order(tier: int, ignoresCancelled: bool)

  /** Code the bus calls but cannot see: a listener's handler method, or the
      `execute` method of an executor supplied to `registerEvent`. */
  datatype Code = HandlerMethod(listener: ListenerId, index: nat) | SuppliedCode(id: nat)

  /** An `EventExecutor`: either the anonymous wrapper generated for a handler
      method, remembering the method's parameter class, or one supplied by the
      caller of `registerEvent`. */
  datatype Executor = Generated(checkClass: ClassId, handler: Code) | Supplied(code: Code)

  /** A `ListenerRegistration`. Each one is a fresh object, so it carries a fresh
      `id` standing for its object identity. */
  datatype Registration = Registration(id: nat, executor: Executor, order: Order, owner: OwnerId)

  /** The throwables the event manager creates or passes on. */
  datatype Throwable =
    | WrongEventType                   // EventException("Wrong event type passed to registered method")
    | EventException(cause: Throwable) // EventException wrapping a caught throwable
    | InvocationTarget(cause: Throwable) // what Method.invoke throws when the method it calls throws
    | HandlerFault(code: nat)          // whatever a handler or supplied executor throws
    | ArrayIndexOutOfBounds            // reading the first parameter of a method that has none
    | IllegalArgument(cls: ClassId)    // no class declaring a handler list was found

  /** What running some code on an event did: the cancelled flag it left behind,
      and whether it returned or threw. */
  datatype HandlerOutcome = Returned(cancelled: bool) | Raised(cancelled: bool, error: Throwable)

  /** The SEVERE messages the event manager logs, as tags. */
  datatype LogEntry =
    | CouldNotPass(eventClass: ClassId, owner: OwnerId)    // an executor threw during dispatch
    | MissingClass(owner: OwnerId, listener: ListenerId)   // the listener refers to a missing class
    | WrongArguments                                       // a handler method has a bad signature
    | DelegatedClass(key: ClassId, expected: ClassId)      // bulk registration against a delegating class
}
