/** Handler discovery (`createRegisteredListeners`): turning a listener's
    declared methods into registrations grouped by the event class each handles. */
module Discovery {
  import opened Wrappers
  import opened Events
  import opened Hierarchy

  /** A declared method of a listener class: its `@EventHandler` annotation, if
      any (carrying the annotation's order), and its parameter classes. */
  datatype MethodDecl = MethodDecl(annotation: Option<Order>, params: seq<ClassId>)

  /** A listener object: its identity and its class's declared methods, in the
      order reflection reports them. */
  datatype Listener = Listener(id: ListenerId, methods: seq<MethodDecl>)

  /** The outcome of discovery: the registrations grouped by parameter class, or
      the throwable that escaped; and the log written either way. */
  datatype Discovered = Discovered(outcome: Result<map<ClassId, set<Registration>>, Throwable>, log: seq<LogEntry>)

  /** An annotated handler that reads a first parameter it does not have. */
  predicate Crashes(m: MethodDecl) {
    m.annotation.Some? && |m.params| == 0
  }

  /** An annotated handler with a well-formed signature: exactly one parameter,
      of an event class. */
  predicate Kept(t: ClassTable, m: MethodDecl)
    requires Valid(t)
  {
    m.annotation.Some? && |m.params| == 1 && IsEventClass(t, m.params[0])
  }

  /** An annotated handler that has parameters but the wrong signature. */
  predicate Rejected(t: ClassTable, m: MethodDecl)
    requires Valid(t)
  {
    m.annotation.Some? && |m.params| >= 1 && !Kept(t, m)
  }

  /** The registration built for the kept method at `index`: a fresh object,
      a generated executor checking against the parameter class, the
      annotation's order and the given owner. */
  function Binding(l: Listener, owner: OwnerId, firstId: nat, index: nat): (r: Registration)
    requires index < |l.methods|
    requires l.methods[index].annotation.Some? && |l.methods[index].params| >= 1
    ensures firstId <= r.id < firstId + |l.methods|
    ensures r.executor.Generated? && r.executor.checkClass == l.methods[index].params[0]
    ensures r.executor.handler == HandlerMethod(l.id, index)
    ensures Some(r.order) == l.methods[index].annotation && r.owner == owner
  {
    var m := l.methods[index];
    Registration(firstId + index, Generated(m.params[0], HandlerMethod(l.id, index)), m.annotation.value, owner)
  }

  /** The index of the first method that crashes discovery, or the number of
      methods when none does. */
  function FirstCrash(ms: seq<MethodDecl>): (k: nat)
    ensures k <= |ms|
    ensures forall i :: 0 <= i < k ==> !Crashes(ms[i])
    ensures k < |ms| ==> Crashes(ms[k])
  {
    if ms == [] then 0
    else if Crashes(ms[0]) then 0
    else 1 + FirstCrash(ms[1..])
  }

  /** The number of rejected methods among the first `n` of `ms`. */
  function RejectionCount(t: ClassTable, ms: seq<MethodDecl>, n: nat): nat
    requires Valid(t) && n <= |ms|
  {
    if n == 0 then 0
    else RejectionCount(t, ms, n - 1) + (if Rejected(t, ms[n - 1]) then 1 else 0)
  }

  /** Every kept method among the first `n` has its registration in the group
      of its parameter class. */
  ghost predicate CoversKept(t: ClassTable, l: Listener, owner: OwnerId, firstId: nat, n: nat,
                             g: map<ClassId, set<Registration>>)
    requires Valid(t) && n <= |l.methods|
  {
    forall i :: 0 <= i < n && Kept(t, l.methods[i]) ==>
      l.methods[i].params[0] in g && Binding(l, owner, firstId, i) in g[l.methods[i].params[0]]
  }

  /** Every grouped registration is that of a kept method among the first `n`,
      filed under that method's parameter class. */
  ghost predicate OnlyKept(t: ClassTable, l: Listener, owner: OwnerId, firstId: nat, n: nat,
                           g: map<ClassId, set<Registration>>)
    requires Valid(t) && n <= |l.methods|
  {
    forall c, r :: c in g && r in g[c] ==>
      exists i :: 0 <= i < n && Kept(t, l.methods[i]) && l.methods[i].params[0] == c
                  && r == Binding(l, owner, firstId, i)
  }

  /** The groups a successful scan of the first `n` methods must hold: every
      kept method's registration under its parameter class, nothing else, and
      no empty group. */
  ghost predicate GroupsOf(t: ClassTable, l: Listener, owner: OwnerId, firstId: nat, n: nat,
                           g: map<ClassId, set<Registration>>)
    requires Valid(t) && n <= |l.methods|
  {
    && CoversKept(t, l, owner, firstId, n, g)
    && OnlyKept(t, l, owner, firstId, n, g)
    && (forall c :: c in g ==> g[c] != {})
  }

  /** The loop of `createRegisteredListeners` over the first `n` methods:
      unannotated methods are passed over, a crashing one aborts, a rejected one
      is logged and skipped, and a kept one adds its registration to the group of
      its parameter class. */
  function Scan(t: ClassTable, l: Listener, owner: OwnerId, firstId: nat, n: nat): (d: Discovered)
    requires Valid(t) && n <= |l.methods|
    ensures d.outcome.Failure? <==> FirstCrash(l.methods) < n
    ensures d.outcome.Failure? ==> d.outcome.error == ArrayIndexOutOfBounds
    ensures forall e :: e in d.log ==> e == WrongArguments
    ensures |d.log| == RejectionCount(t, l.methods, if n < FirstCrash(l.methods) then n else FirstCrash(l.methods))
    decreases n
  {
    if n == 0 then Discovered(Success(map[]), [])
    else
      var prev := Scan(t, l, owner, firstId, n - 1);
      var m := l.methods[n - 1];
      if prev.outcome.Failure? then prev
      else if m.annotation.None? then prev
      else if |m.params| == 0 then Discovered(Failure(ArrayIndexOutOfBounds), prev.log)
      else if !IsEventClass(t, m.params[0]) || |m.params| != 1 then
        Discovered(prev.outcome, prev.log + [WrongArguments])
      else
        var g := prev.outcome.value;
        var c := m.params[0];
        var group := if c in g then g[c] else {};
        Discovered(Success(g[c := group + {Binding(l, owner, firstId, n - 1)}]), prev.log)
  }

  /** A scan that does not abort holds exactly the registrations of the kept
      methods it has passed, each under its parameter class, and no empty group. */
  lemma {:induction false} ScanGroups(t: ClassTable, l: Listener, owner: OwnerId, firstId: nat, n: nat)
    requires Valid(t) && n <= |l.methods|
    requires Scan(t, l, owner, firstId, n).outcome.Success?
    ensures GroupsOf(t, l, owner, firstId, n, Scan(t, l, owner, firstId, n).outcome.value)
  {
    if n > 0 {
      ScanStep(t, l, owner, firstId, n);
      ScanGroups(t, l, owner, firstId, n - 1);
      if Kept(t, l.methods[n - 1]) {
        ScanStepKept(t, l, owner, firstId, n);
      } else {
        ScanStepOther(t, l, owner, firstId, n);
      }
    }
  }

  /** One step of a scan that does not abort: the scan before it did not abort
      either, and the step adds the method's registration exactly when the
      method is kept. */
  lemma ScanStep(t: ClassTable, l: Listener, owner: OwnerId, firstId: nat, n: nat)
    requires Valid(t) && 0 < n <= |l.methods|
    requires Scan(t, l, owner, firstId, n).outcome.Success?
    ensures Scan(t, l, owner, firstId, n - 1).outcome.Success?
    ensures var g := Scan(t, l, owner, firstId, n - 1).outcome.value;
            var g' := Scan(t, l, owner, firstId, n).outcome.value;
            var c := l.methods[n - 1].params;
            && (Kept(t, l.methods[n - 1]) ==>
                  g' == g[c[0] := (if c[0] in g then g[c[0]] else {}) + {Binding(l, owner, firstId, n - 1)}])
            && (!Kept(t, l.methods[n - 1]) ==> g' == g)
  {
  }

  lemma ScanStepOther(t: ClassTable, l: Listener, owner: OwnerId, firstId: nat, n: nat)
    requires Valid(t) && 0 < n <= |l.methods|
    requires Scan(t, l, owner, firstId, n).outcome.Success?
    requires !Kept(t, l.methods[n - 1])
    requires Scan(t, l, owner, firstId, n - 1).outcome.Success?
    requires GroupsOf(t, l, owner, firstId, n - 1, Scan(t, l, owner, firstId, n - 1).outcome.value)
    ensures GroupsOf(t, l, owner, firstId, n, Scan(t, l, owner, firstId, n).outcome.value)
  {
    ScanStep(t, l, owner, firstId, n);
    var g := Scan(t, l, owner, firstId, n - 1).outcome.value;
    var g' := Scan(t, l, owner, firstId, n).outcome.value;
    assert g == g';
    forall c, r | c in g' && r in g'[c]
      ensures exists i :: 0 <= i < n && Kept(t, l.methods[i]) && l.methods[i].params[0] == c
                          && r == Binding(l, owner, firstId, i)
    {
      var i :| 0 <= i < n - 1 && Kept(t, l.methods[i]) && l.methods[i].params[0] == c
               && r == Binding(l, owner, firstId, i);
    }
  }

  lemma ScanStepKept(t: ClassTable, l: Listener, owner: OwnerId, firstId: nat, n: nat)
    requires Valid(t) && 0 < n <= |l.methods|
    requires Scan(t, l, owner, firstId, n).outcome.Success?
    requires Kept(t, l.methods[n - 1])
    requires Scan(t, l, owner, firstId, n - 1).outcome.Success?
    requires GroupsOf(t, l, owner, firstId, n - 1, Scan(t, l, owner, firstId, n - 1).outcome.value)
    ensures GroupsOf(t, l, owner, firstId, n, Scan(t, l, owner, firstId, n).outcome.value)
  {
    ScanStep(t, l, owner, firstId, n);
    var g := Scan(t, l, owner, firstId, n - 1).outcome.value;
    var g' := Scan(t, l, owner, firstId, n).outcome.value;
    AddKeptCovers(t, l, owner, firstId, n, g, g');
    AddKeptOnly(t, l, owner, firstId, n, g, g');
  }

  lemma AddKeptCovers(t: ClassTable, l: Listener, owner: OwnerId, firstId: nat, n: nat,
                      g: map<ClassId, set<Registration>>, g': map<ClassId, set<Registration>>)
    requires Valid(t) && 0 < n <= |l.methods|
    requires Kept(t, l.methods[n - 1])
    requires var c := l.methods[n - 1].params[0];
             g' == g[c := (if c in g then g[c] else {}) + {Binding(l, owner, firstId, n - 1)}]
    requires CoversKept(t, l, owner, firstId, n - 1, g)
    ensures CoversKept(t, l, owner, firstId, n, g')
  {
    forall i | 0 <= i < n && Kept(t, l.methods[i])
      ensures l.methods[i].params[0] in g' && Binding(l, owner, firstId, i) in g'[l.methods[i].params[0]]
    {
      if i < n - 1 {
        assert l.methods[i].params[0] in g && Binding(l, owner, firstId, i) in g[l.methods[i].params[0]];
      }
    }
  }

  lemma AddKeptOnly(t: ClassTable, l: Listener, owner: OwnerId, firstId: nat, n: nat,
                    g: map<ClassId, set<Registration>>, g': map<ClassId, set<Registration>>)
    requires Valid(t) && 0 < n <= |l.methods|
    requires Kept(t, l.methods[n - 1])
    requires var c := l.methods[n - 1].params[0];
             g' == g[c := (if c in g then g[c] else {}) + {Binding(l, owner, firstId, n - 1)}]
    requires OnlyKept(t, l, owner, firstId, n - 1, g) && forall d :: d in g ==> g[d] != {}
    ensures OnlyKept(t, l, owner, firstId, n, g') && forall d :: d in g' ==> g'[d] != {}
  {
    var c := l.methods[n - 1].params[0];
    var b := Binding(l, owner, firstId, n - 1);
    forall d, r | d in g' && r in g'[d]
      ensures exists i :: 0 <= i < n && Kept(t, l.methods[i]) && l.methods[i].params[0] == d
                          && r == Binding(l, owner, firstId, i)
    {
      if d == c && r == b {
        assert Kept(t, l.methods[n - 1]);
      } else {
        assert d in g && r in g[d];
        var i :| 0 <= i < n - 1 && Kept(t, l.methods[i]) && l.methods[i].params[0] == d
                 && r == Binding(l, owner, firstId, i);
      }
    }
  }

  /** `createRegisteredListeners`. When the listener's class refers to a class
      that cannot be loaded (`classesMissing`), one entry is logged and the result
      is empty. Otherwise the scan covers every method: discovery throws exactly
      when an annotated method has no parameter, logs one entry per rejected
      method before that point, and otherwise groups one registration per kept
      method under its parameter class. */
  function CreateRegisteredListeners(t: ClassTable, l: Listener, owner: OwnerId, firstId: nat,
                                     classesMissing: bool): (d: Discovered)
    requires Valid(t)
    ensures classesMissing ==> d == Discovered(Success(map[]), [MissingClass(owner, l.id)])
    ensures !classesMissing ==>
              && (d.outcome.Failure? <==> exists i :: 0 <= i < |l.methods| && Crashes(l.methods[i]))
              && (d.outcome.Failure? ==> d.outcome.error == ArrayIndexOutOfBounds)
              && |d.log| == RejectionCount(t, l.methods, FirstCrash(l.methods))
              && (forall e :: e in d.log ==> e == WrongArguments)
    ensures !classesMissing && d.outcome.Success? ==> GroupsOf(t, l, owner, firstId, |l.methods|, d.outcome.value)
  {
    if classesMissing then Discovered(Success(map[]), [MissingClass(owner, l.id)])
    else
      var d := Scan(t, l, owner, firstId, |l.methods|);
      if d.outcome.Success? then ScanGroups(t, l, owner, firstId, |l.methods|); d
      else d
  }

  /** Distinct methods give distinct registrations, so grouping them in a set
      never collapses two handlers into one. */
  lemma BindingsDistinct(l: Listener, owner: OwnerId, firstId: nat, i: nat, j: nat)
    requires i < |l.methods| && j < |l.methods| && i != j
    requires l.methods[i].annotation.Some? && |l.methods[i].params| >= 1
    requires l.methods[j].annotation.Some? && |l.methods[j].params| >= 1
    ensures Binding(l, owner, firstId, i) != Binding(l, owner, firstId, j)
  {
  }

  /** Every key of a discovered map is an event class, and every registration in
      it has a fresh identity in `[firstId, firstId + |methods|)`. */
  lemma DiscoveredKeysAreEventClasses(t: ClassTable, l: Listener, owner: OwnerId, firstId: nat,
                                      g: map<ClassId, set<Registration>>)
    requires Valid(t) && GroupsOf(t, l, owner, firstId, |l.methods|, g)
    ensures forall c :: c in g ==> c in t.classes && IsEventClass(t, c)
    ensures forall c, r :: c in g && r in g[c] ==> firstId <= r.id < firstId + |l.methods| && r.owner == owner
  {
    forall c | c in g ensures c in t.classes && IsEventClass(t, c) {
      var r :| r in g[c];
      var i :| 0 <= i < |l.methods| && Kept(t, l.methods[i]) && l.methods[i].params[0] == c
                && r == Binding(l, owner, firstId, i);
    }
  }
}
