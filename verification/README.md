# SimpleEventManager in Dafny

A model of `SimpleEventManager`, the synchronous event bus of the OnEvent
library. The model covers four things:

- **Firing an event** (`callEvent`). The bus walks the registrations of the event's
  handler list in order. Before each one it re-reads the cancelled flag. It invokes
  a registration only when the event is not cancelled or the registration's order
  ignores cancellation. It logs and contains every throwable an executor raises.
- **Registration-class resolution** (`getRegistrationClass`). The bus walks up the
  superclass chain to the nearest class that declares `getHandlerList`. It never
  steps into the root `Event` class, and it throws `IllegalArgumentException` when
  no such class is found.
- **Registration.** `registerEvent` installs one registration into the list of the
  resolved class. `registerEvents` discovers a listener's handlers and installs
  them group by group. It refuses, and logs, any group whose key is a delegating
  class. `getEventListeners` is the lookup both of them use.
- **Handler discovery** (`createRegisteredListeners` and its anonymous
  `EventExecutor`). The bus filters the listener's declared methods and groups one
  registration per well-formed handler under its parameter class. It wraps each
  handler in an executor that checks the event's class at run time.

Reflection is replaced by an explicit class table, `Events.ClassTable`. Each class
records three things:
- its superclass;
- whether it declares `getHandlerList`;
- a depth that strictly decreases towards the top of the hierarchy, which makes
  every walk terminate.

`isAssignableFrom` is membership in the superclass chain (`Hierarchy.IsSubclass`).
Code the bus cannot see is a parameter `run` that maps a piece of code and an event
to an outcome. That code is the handler methods and the executors supplied to
`registerEvent`. The outcome is the cancelled flag afterwards, plus the throwable,
if any. For a handler method, that throwable is what the method itself throws;
the `InvocationTargetException` that `Method.invoke` wraps it in is added by the
generated executor.

Files:
- `wrappers.dfy`: `Option` and `Result`.
- `events.dfy`: the data model. It holds the class table, events, orders,
  executors, registrations, throwables and log entries.
- `hierarchy.dfy`: the superclass chain and `getRegistrationClass`.
- `executors.dfy`: the generated executor.
- `dispatcher.dfy`: `callEvent`.
- `discovery.dfy`: `createRegisteredListeners`.
- `registrar.dfy`: `getEventListeners`, `registerEvent` and `registerEvents`.

Behaviour of the code worth knowing, all of it kept in the model:

- **Resolution never steps up into `Event`.** A subclass of `Event` that relies on
  `Event`'s own list makes resolution throw (`Hierarchy.RootNeverReached`). Only a
  handler whose parameter is `Event` itself resolves to `Event`, and only when
  `Event` declares a list.
- **The two registration paths differ on a delegating class.** Only
  `registerEvents` refuses a group keyed by a class that does not declare its own
  list. `registerEvent` silently installs into the ancestor's list
  (`Registrar.DelegatingClassSingleVersusBulk`).
- **Resolution can fail.** When no declaring class is reachable, resolution throws
  `IllegalArgumentException`, and every caller passes that on.
- **Annotated methods with no parameter crash discovery.** Such a method aborts
  discovery with `ArrayIndexOutOfBoundsException`, because the first parameter type
  is read before the arity check. It is not logged and skipped like other
  malformed handlers.

## Model

| member | source | states |
|---|---|---|
| Hierarchy.GetRegistrationClass | src/main/java/com/zachsthings/onevent/SimpleEventManager.java:67-78 | A successful result declares a handler list and lies on the superclass chain of the class asked about. A class that declares its own list resolves to itself. Any other result is a proper subclass of `Event`. A failure is an `IllegalArgumentException` naming a class on the chain. |
| Hierarchy.IsSubclass | src/main/java/com/zachsthings/onevent/SimpleEventManager.java:72 | A class is a subtype of another only when both are loaded classes. |
| Hierarchy.SubclassTransitive | src/main/java/com/zachsthings/onevent/SimpleEventManager.java:112 | Subtyping is a preorder. Every loaded class is a subtype of itself, and a superclass of a superclass of a class is a superclass of it. |
| Hierarchy.ResolveSound | src/main/java/com/zachsthings/onevent/SimpleEventManager.java:67-73 | A successful result is the nearest declaring class on the chain. Every class the walk steps into on the way is a proper subclass of `Event`. |
| Hierarchy.ResolveComplete | src/main/java/com/zachsthings/onevent/SimpleEventManager.java:67-76 | Whenever a nearest declaring class is reachable without stepping into `Event` or a non-event class, resolution succeeds with it. Together with `ResolveSound`, resolution throws exactly when no such class exists. |
| Hierarchy.ResolveIdempotent | src/main/java/com/zachsthings/onevent/SimpleEventManager.java:67-70 | Resolving a resolved class gives the same class back. |
| Hierarchy.RootNeverReached | src/main/java/com/zachsthings/onevent/SimpleEventManager.java:72-75 | For any class other than `Event`, the result is never the root `Event` class. |
| Executors.Execute | src/main/java/com/zachsthings/onevent/SimpleEventManager.java:110-118 | On a class mismatch, the generated executor fails with an `EventException` wrapping the wrong-event-type `EventException` and leaves the flag alone. On a match, the flag and whether it throws follow the handler, and a handler's throwable comes back as an `EventException` around an `InvocationTargetException` around it. A supplied executor behaves exactly as its code. |
| Executors.MismatchNeverCallsHandler | src/main/java/com/zachsthings/onevent/SimpleEventManager.java:112-113 | On a class mismatch, the outcome does not depend on the handler, so the handler is never reached. |
| Executors.MatchForwardsToHandler | src/main/java/com/zachsthings/onevent/SimpleEventManager.java:115-117 | On a class match, a normal return passes through unchanged. A handler's throwable comes back as an `EventException` around the `InvocationTargetException` of the reflective call. |
| Dispatcher.TakeTurn | src/main/java/com/zachsthings/onevent/SimpleEventManager.java:24-30 | A registration is invoked if and only if the event is not cancelled at its turn or its order ignores cancellation. A skipped turn keeps the flag and throws nothing. A failure is recorded exactly when the invoked executor throws. |
| Dispatcher.FailureLog | src/main/java/com/zachsthings/onevent/SimpleEventManager.java:28-29 | The log is no longer than the trace. Every entry names the event class. The log is empty exactly when no executor threw. Every throwing turn's owner is logged. |
| Dispatcher.FailureLogCount | src/main/java/com/zachsthings/onevent/SimpleEventManager.java:23-31 | The log has exactly as many entries as there are turns whose executor threw. |
| Dispatcher.FailureLogInOrder | src/main/java/com/zachsthings/onevent/SimpleEventManager.java:23-31 | The log is written in turn order. The log of the first turns is a prefix of the whole log, and a throwing turn's entry, naming its owner, comes right after the entries of the turns before it. |
| Dispatcher.CallEvent | src/main/java/com/zachsthings/onevent/SimpleEventManager.java:18-34 | A null handler array invokes nothing and returns the event untouched. Otherwise the result meets `Delivered`: one turn per registration in array order, each seeing the flag the previous turn left, with the log of failures. The caller gets its event back either way. |
| Dispatcher.DeliveredUnique | src/main/java/com/zachsthings/onevent/SimpleEventManager.java:18-34 | The reference definition of a dispatch determines the result: two results that meet it are equal. |
| Dispatcher.StaysCancelled | src/main/java/com/zachsthings/onevent/SimpleEventManager.java:23-27 | Suppose the event is cancelled at some turn, and no cancellation-ignoring handler un-cancels it. Then it is still cancelled at every later turn. |
| Dispatcher.CancelSticks | src/main/java/com/zachsthings/onevent/SimpleEventManager.java:23-27 | Under the same conditions, every later registration is invoked exactly when its order ignores cancellation, and the event comes back cancelled. |
| Dispatcher.MiddleFailureIsolated | src/main/java/com/zachsthings/onevent/SimpleEventManager.java:23-31 | Take three registrations where only the middle executor throws. All three run, exactly one entry naming the middle owner is logged, and the event comes back as given. |
| Discovery.FirstCrash | src/main/java/com/zachsthings/onevent/SimpleEventManager.java:90-94 | Gives the position of the first annotated method without a parameter, and no method before it is one. |
| Discovery.Binding | src/main/java/com/zachsthings/onevent/SimpleEventManager.java:108-121 | The registration built for a kept method has a generated executor that checks against the method's parameter class and calls that method. It carries the annotation's order, the given owner and a fresh identity in the range handed out for this listener. |
| Discovery.Scan | src/main/java/com/zachsthings/onevent/SimpleEventManager.java:89-122 | After the first n methods, the scan has failed exactly when one of them is an annotated method without a parameter. The failure is `ArrayIndexOutOfBoundsException`. The log holds one wrong-arguments entry per rejected method before the failure point. |
| Discovery.ScanGroups | src/main/java/com/zachsthings/onevent/SimpleEventManager.java:103-121 | A scan that did not fail holds exactly the registrations of the kept methods passed so far, each under its parameter class. It has no empty group. |
| Discovery.CreateRegisteredListeners | src/main/java/com/zachsthings/onevent/SimpleEventManager.java:80-124 | A listener class that refers to a missing class gives an empty map and one log entry. Otherwise discovery throws exactly when some annotated method has no parameter. It logs every rejected method before that point. When it succeeds, it groups one registration per kept method under that method's parameter class, carrying the annotation's order and the owner, with no empty group. |
| Discovery.BindingsDistinct | src/main/java/com/zachsthings/onevent/SimpleEventManager.java:105-108 | Registrations made for two different methods are different, so the set never collapses two handlers. |
| Discovery.DiscoveredKeysAreEventClasses | src/main/java/com/zachsthings/onevent/SimpleEventManager.java:96-108 | Every key of the discovered map is an event class. Every registration in it has the given owner and a fresh identity. |
| Registrar.AddAll | src/main/java/com/zachsthings/onevent/SimpleEventManager.java:43 | Adding a group grows exactly the one list by the group. No other list, the counter or the log changes. |
| Registrar.GetEventListeners | src/main/java/com/zachsthings/onevent/SimpleEventManager.java:57-65 | The lookup succeeds exactly when resolution does. It then gives the nearest class on the superclass chain that declares a list, which is the resolved class. Otherwise it throws `IllegalArgumentException`. |
| Registrar.RegisterEvent | src/main/java/com/zachsthings/onevent/SimpleEventManager.java:47-49 | The call throws exactly when resolution does, and then nothing changes. Otherwise exactly one new registration, with the given executor, order and owner, goes into the resolved class's list. Every other list stays the same. |
| Registrar.DelegationLogNamesDelegatingKeys | src/main/java/com/zachsthings/onevent/SimpleEventManager.java:38-41 | Every entry of the bulk registration's log names a delegating key together with the class that key should have used. |
| Registrar.DelegationLog | src/main/java/com/zachsthings/onevent/SimpleEventManager.java:38-41 | The bulk registration log is no longer than the run of keys visited before the first unresolvable key. It is empty exactly when none of those keys delegates. |
| Registrar.DelegationLogOncePerKey | src/main/java/com/zachsthings/onevent/SimpleEventManager.java:38-41 | Of the keys visited before the first unresolvable one, each delegating key is logged exactly once, with the class it should have used. A key that declares its own list is not logged. |
| Registrar.Visit | src/main/java/com/zachsthings/onevent/SimpleEventManager.java:38-43 | A delegating key leaves every list alone and logs itself with its registration class. A declaring key adds its whole group to its own list and logs nothing. |
| Registrar.InstallGroups | src/main/java/com/zachsthings/onevent/SimpleEventManager.java:37-45 | The loop never hands out identities, and lists appear only for declaring classes. |
| Registrar.InstallGroupsRaises | src/main/java/com/zachsthings/onevent/SimpleEventManager.java:37-38 | The loop throws exactly when some key cannot be resolved, and then with the first such key's exception. |
| Registrar.InstallGroupsLists | src/main/java/com/zachsthings/onevent/SimpleEventManager.java:37-43 | Up to the first unresolvable key, each declaring key's group is added in full to its own list. Delegating keys add nothing, and no other list changes. |
| Registrar.InstallGroupsLog | src/main/java/com/zachsthings/onevent/SimpleEventManager.java:37-42 | Up to the first unresolvable key, the loop logs one entry per delegating key, in iteration order, and carries on with the remaining groups. |
| Registrar.Install | src/main/java/com/zachsthings/onevent/SimpleEventManager.java:37-45 | The loop throws exactly when some key cannot be resolved, and then with the first such key's exception. Up to that key, each declaring key's group is added to its own list, and the log gains one entry per delegating key. |
| Registrar.RegisterEvents | src/main/java/com/zachsthings/onevent/SimpleEventManager.java:36-45 | When discovery throws, no list changes and the exception escapes. Otherwise the call throws exactly when some key in iteration order cannot be resolved, and then with the first such key's exception. Up to that key, each declaring key's group is added in full to its own list, and no other list changes. The log is the discovery log followed by one entry per delegating key. |
| Registrar.RegisterEventKeepsConsistent | src/main/java/com/zachsthings/onevent/SimpleEventManager.java:47-49 | `registerEvent` keeps lists only for declaring classes and identities below the counter. |
| Registrar.RegisterEventsKeepsConsistent | src/main/java/com/zachsthings/onevent/SimpleEventManager.java:36-45 | `registerEvents` keeps lists only for declaring classes and identities below the counter. |
| Registrar.DiscoveredAreFresh | src/main/java/com/zachsthings/onevent/SimpleEventManager.java:105-108 | Registrations just discovered are new objects: none is already in any handler list. |
| Registrar.DelegatingClassSingleVersusBulk | src/main/java/com/zachsthings/onevent/SimpleEventManager.java:36-49 | For a delegating class, bulk registration installs nothing and logs the class it should have used. `registerEvent` installs one registration into that ancestor's list. |

## Left out

- Handler-list ordering and storage. Sorting registrations by priority tier happens
  inside `HandlerList`, which is not part of this model. Each list is a multiset of
  registrations. `callEvent` takes the array that
  `getRegisteredListeners()` returns on the event's handler list as a parameter
  (`None` for `null`). Its contract is about order relative to that
  array only.
- Object identity. Each registration is a fresh object, and the model stands in for
  that with a counter of identities. `registerEvents` reserves one identity per
  declared method, whether or not discovery succeeds.
- `HashMap` iteration order. `registerEvents` takes the discovered map's iteration
  order as a parameter: a duplicate-free enumeration of its keys.
- Reflection mechanics. `getDeclaredMethods`, `getAnnotation`, `setAccessible` and
  `Method.invoke` are left out. Their results are given in the class table and the
  method records. Throwables from reflective calls other than those the source
  handles are left out as well, for example a security exception, or a failure
  when invoking `getHandlerList`. A declaring class's list is assumed to exist.
- Interfaces and primitive types. Subtyping follows superclass chains only. A
  parameter type that is not in the class table is not an event class.
- `NoClassDefFoundError`. Where it comes from is a boolean parameter of discovery.
- Logger text and severity. A log entry is a tag carrying the classes or owner the
  message names.
- Concurrency. The source has no synchronisation, and concurrent register and fire
  calls are not modelled.
- Null references. Owners, listeners, events and handler lists are assumed
  non-null. A null handler list makes `callEvent` throw `NullPointerException`
  before any handler runs (line 20), outside the per-handler catch. In the
  source, a throwing executor whose registration has a null owner makes
  `callEvent` throw `NullPointerException` from its catch block (line 29). A null
  owner on the missing-class path of discovery does the same (line 86). Neither
  case is modelled.
- Shared handler lists. Lists are keyed by declaring class, so each declaring
  class's `getHandlerList` is assumed to return a list of its own (lines 59-61). If
  two declaring classes returned the same `HandlerList`, registering under one
  would also change the other, and the frame clauses of `Registrar.AddAll` and
  `Registrar.RegisterEvent` would not hold.
- Registrar.GetEventListeners: rethrows the resolution exception as the same value.
  The source builds a new `IllegalArgumentException` from the old one's text, and
  that text is not modelled.
- Discovery.Scan: its own contract leaves the groups out. They are stated by
  `Discovery.ScanGroups`.
- Registrar.InstallGroups: its own contract states only the counter and which lists
  may appear. The lists, the log and the exception are stated by
  `Registrar.InstallGroupsLists`, `Registrar.InstallGroupsLog` and
  `Registrar.InstallGroupsRaises`.
