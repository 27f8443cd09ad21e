/** Installing registrations into handler lists: `registerEvent`,
    `registerEvents` and `getEventListeners`. */
module Registrar {
  import opened Wrappers
  import opened Events
  import opened Hierarchy
  import opened Discovery

  /** The handler lists the manager installs into, keyed by the class that
      declares each list (their ordering by priority belongs to the handler list
      and is not modelled, so each is a multiset), the next fresh registration
      identity, and the log. */
  datatype Manager = Manager(lists: map<ClassId, multiset<Registration>>, nextId: nat, log: seq<LogEntry>)

  /** The state after a registration call, and the throwable it let escape, if any. */
  datatype Step = Step(mgr: Manager, raised: Option<Throwable>)

  /** The registrations in the handler list of class `c`. */
  function ListOf(m: Manager, c: ClassId): multiset<Registration> {
    if c in m.lists then m.lists[c] else multiset{}
  }

  /** Handler lists exist only for classes that declare one, and every installed
      registration's identity was handed out before `nextId`. */
  predicate Consistent(t: ClassTable, m: Manager) {
    forall c :: c in m.lists ==>
      && c in t.classes && Declares(t, c)
      && forall r :: r in m.lists[c] ==> r.id < m.nextId
  }

  /** `m` with `regs` added to the handler list of class `k`. */
  function AddAll(m: Manager, k: ClassId, regs: multiset<Registration>): (m': Manager)
    ensures ListOf(m', k) == ListOf(m, k) + regs
    ensures forall d :: d != k ==> ListOf(m', d) == ListOf(m, d)
    ensures m'.nextId == m.nextId && m'.log == m.log
    ensures m'.lists.Keys == m.lists.Keys + {k}
  {
    m.(lists := m.lists[k := ListOf(m, k) + regs])
  }

  /** `getEventListeners`: the handler list used for `c` is that of its
      registration class, the nearest class on its superclass chain that declares
      a list; when resolution throws, the exception is rethrown as an
      `IllegalArgumentException` (modelled as the same value). */
  function GetEventListeners(t: ClassTable, c: ClassId): (r: Result<ClassId, Throwable>)
    requires Valid(t) && c in t.classes
    ensures r.Success? ==> r.value in t.classes && Declares(t, r.value) && r.value in Chain(t, c)
    ensures r.Success? ==> NearestDeclaring(t, c, r.value)
    ensures r.Success? <==> GetRegistrationClass(t, c).Success?
    ensures r.Failure? ==> r.error.IllegalArgument?
  {
    match GetRegistrationClass(t, c)
    case Success(k) => ResolveSound(t, c); Success(k)
    case Failure(e) => Failure(e)
  }

  /** `registerEvent`: one fresh registration with the given executor, order and
      owner goes into the list of the resolved registration class, even when `c`
      only delegates to it; when resolution throws, nothing changes. */
  function RegisterEvent(t: ClassTable, m: Manager, c: ClassId, order: Order, executor: Executor,
                         owner: OwnerId): (s: Step)
    requires Valid(t) && c in t.classes
    ensures s.raised.Some? <==> GetRegistrationClass(t, c).Failure?
    ensures s.raised.Some? ==> s.mgr == m && s.raised.value.IllegalArgument?
    ensures GetRegistrationClass(t, c).Success? ==>
              var k := GetRegistrationClass(t, c).value;
              && ListOf(s.mgr, k) == ListOf(m, k) + multiset{Registration(m.nextId, executor, order, owner)}
              && (forall d :: d != k ==> ListOf(s.mgr, d) == ListOf(m, d))
              && s.mgr.nextId == m.nextId + 1 && s.mgr.log == m.log
  {
    match GetEventListeners(t, c)
    case Failure(e) => Step(m, Some(e))
    case Success(k) =>
      var reg := Registration(m.nextId, executor, order, owner);
      Step(AddAll(m, k, multiset{reg}).(nextId := m.nextId + 1), None)
  }

  /** The index of the first key whose resolution throws, or `|keys|`. */
  function FirstUnresolvable(t: ClassTable, keys: seq<ClassId>): (p: nat)
    requires Valid(t) && forall c :: c in keys ==> c in t.classes
    ensures p <= |keys|
    ensures forall i :: 0 <= i < p ==> GetRegistrationClass(t, keys[i]).Success?
    ensures p < |keys| ==> GetRegistrationClass(t, keys[p]).Failure?
  {
    if keys == [] then 0
    else if GetRegistrationClass(t, keys[0]).Failure? then 0
    else 1 + FirstUnresolvable(t, keys[1..])
  }

  /** A key that resolves to a class other than itself. */
  predicate Delegating(t: ClassTable, c: ClassId)
    requires Valid(t) && c in t.classes
  {
    GetRegistrationClass(t, c).Success? && GetRegistrationClass(t, c).value != c
  }

  /** The log a bulk registration writes while visiting `keys`: one entry per
      delegating key, naming the class it should have used, up to the first key
      whose resolution throws. */
  function DelegationLog(t: ClassTable, keys: seq<ClassId>): (log: seq<LogEntry>)
    requires Valid(t) && forall c :: c in keys ==> c in t.classes
    ensures |log| <= FirstUnresolvable(t, keys)
    ensures log == [] <==> forall i :: 0 <= i < FirstUnresolvable(t, keys) ==> !Delegating(t, keys[i])
  {
    if keys == [] then []
    else
      match GetRegistrationClass(t, keys[0])
      case Failure(_) => []
      case Success(k) =>
        (if k != keys[0] then [DelegatedClass(keys[0], k)] else []) + DelegationLog(t, keys[1..])
  }

  /** Every entry of the delegation log names a key of `keys` that delegates,
      together with the registration class that key should have used. */
  lemma {:induction false} DelegationLogNamesDelegatingKeys(t: ClassTable, keys: seq<ClassId>)
    requires Valid(t) && forall c :: c in keys ==> c in t.classes
    ensures forall e :: e in DelegationLog(t, keys) ==>
              && e.DelegatedClass? && e.key in keys && Delegating(t, e.key)
              && GetRegistrationClass(t, e.key) == Success(e.expected)
  {
    if keys != [] {
      DelegationLogNamesDelegatingKeys(t, keys[1..]);
    }
  }

  /** Each key visited before the first unresolvable one is logged exactly once
      when it delegates, and not at all when it declares its own list. */
  lemma {:induction false} DelegationLogOncePerKey(t: ClassTable, keys: seq<ClassId>, i: nat)
    requires Valid(t) && forall c :: c in keys ==> c in t.classes
    requires NoDuplicates(keys) && i < FirstUnresolvable(t, keys)
    ensures multiset(DelegationLog(t, keys))[DelegatedClass(keys[i], GetRegistrationClass(t, keys[i]).value)]
              == if Delegating(t, keys[i]) then 1 else 0
  {
    var e := DelegatedClass(keys[i], GetRegistrationClass(t, keys[i]).value);
    var tail := keys[1..];
    var head := DelegationLogHead(t, keys);
    NoDuplicatesTail(keys);
    assert multiset(DelegationLog(t, keys))[e] == multiset(head)[e] + multiset(DelegationLog(t, tail))[e];
    if i == 0 {
      DelegationLogNamesDelegatingKeys(t, tail);
      assert e !in DelegationLog(t, tail);
    } else {
      assert keys[0] != keys[i];
      assert tail[i - 1] == keys[i];
      DelegationLogOncePerKey(t, tail, i - 1);
    }
  }

  /** Unfolds the delegation log over a resolvable first key: the entry for
      that key, if it delegates, followed by the log of the rest. */
  lemma DelegationLogHead(t: ClassTable, keys: seq<ClassId>) returns (head: seq<LogEntry>)
    requires Valid(t) && forall c :: c in keys ==> c in t.classes
    requires 0 < FirstUnresolvable(t, keys)
    ensures DelegationLog(t, keys) == head + DelegationLog(t, keys[1..])
    ensures FirstUnresolvable(t, keys[1..]) == FirstUnresolvable(t, keys) - 1
    ensures head == if Delegating(t, keys[0]) then [DelegatedClass(keys[0], GetRegistrationClass(t, keys[0]).value)] else []
  {
    var k0 := GetRegistrationClass(t, keys[0]).value;
    head := if k0 != keys[0] then [DelegatedClass(keys[0], k0)] else [];
  }

  /** One iteration of the `registerEvents` loop for key `c`, which resolved to
      `k`: a key that is not its own registration class is logged and its group
      skipped; otherwise the group goes into the list `getEventListeners` finds
      for `k`, which is `k`'s own. */
  function Visit(t: ClassTable, m: Manager, g: map<ClassId, set<Registration>>, c: ClassId, k: ClassId): (m': Manager)
    requires Valid(t) && c in t.classes && c in g
    requires GetRegistrationClass(t, c) == Success(k)
    ensures m'.nextId == m.nextId
    ensures c != k ==> m'.lists == m.lists && m'.log == m.log + [DelegatedClass(c, k)]
    ensures c == k ==> m'.log == m.log && ListOf(m', c) == ListOf(m, c) + multiset(g[c])
    ensures forall d :: d != c ==> ListOf(m', d) == ListOf(m, d)
    ensures forall d :: d in m'.lists ==> d in m.lists || (d == c && Declares(t, c))
  {
    if c != k then m.(log := m.log + [DelegatedClass(c, k)])
    else AddAll(m, GetEventListeners(t, k).value, multiset(g[c]))
  }

  /** The `registerEvents` loop over the discovered groups, in iteration order
      `keys`; the first key whose resolution throws stops the loop, leaving the
      groups visited before it in place. */
  function InstallGroups(t: ClassTable, m: Manager, g: map<ClassId, set<Registration>>, keys: seq<ClassId>): (s: Step)
    requires Valid(t)
    requires forall c :: c in keys ==> c in g && c in t.classes
    ensures s.mgr.nextId == m.nextId
    ensures forall d :: d in s.mgr.lists ==> d in m.lists || (d in t.classes && Declares(t, d))
    decreases |keys|
  {
    if keys == [] then Step(m, None)
    else
      match GetRegistrationClass(t, keys[0])
      case Failure(e) => Step(m, Some(e))
      case Success(k) => InstallGroups(t, Visit(t, m, g, keys[0], k), g, keys[1..])
  }

  /** What a group adds to the list of class `d` when the loop has processed the
      keys in `done`: its whole group if `d` is one of them and declares its own
      list, nothing otherwise. */
  function Added(t: ClassTable, g: map<ClassId, set<Registration>>, done: seq<ClassId>, d: ClassId): multiset<Registration>
    requires Valid(t)
  {
    if d in done && d in g && d in t.classes && Declares(t, d) then multiset(g[d]) else multiset{}
  }

  predicate NoDuplicates(keys: seq<ClassId>) {
    forall i, j :: 0 <= i < j < |keys| ==> keys[i] != keys[j]
  }

  /** One turn of the loop over a resolvable first key. */
  lemma InstallGroupsUnfold(t: ClassTable, m: Manager, g: map<ClassId, set<Registration>>, keys: seq<ClassId>)
    requires Valid(t)
    requires forall c :: c in keys ==> c in g && c in t.classes
    requires keys != [] && GetRegistrationClass(t, keys[0]).Success?
    ensures InstallGroups(t, m, g, keys)
              == InstallGroups(t, Visit(t, m, g, keys[0], GetRegistrationClass(t, keys[0]).value), g, keys[1..])
    ensures FirstUnresolvable(t, keys) == 1 + FirstUnresolvable(t, keys[1..])
  {
  }

  /** The loop throws exactly when some key cannot be resolved, and then with
      the exception of the first such key. */
  lemma {:induction false} InstallGroupsRaises(t: ClassTable, m: Manager, g: map<ClassId, set<Registration>>,
                                               keys: seq<ClassId>)
    requires Valid(t)
    requires forall c :: c in keys ==> c in g && c in t.classes
    ensures var s := InstallGroups(t, m, g, keys);
            var p := FirstUnresolvable(t, keys);
            && (s.raised.Some? <==> p < |keys|)
            && (p < |keys| ==> s.raised == Some(GetRegistrationClass(t, keys[p]).error))
    decreases |keys|
  {
    if keys != [] && GetRegistrationClass(t, keys[0]).Success? {
      var c := keys[0];
      var k := GetRegistrationClass(t, c).value;
      var m1 := Visit(t, m, g, c, k);
      assert InstallGroups(t, m, g, keys) == InstallGroups(t, m1, g, keys[1..]);
      InstallGroupsRaises(t, m1, g, keys[1..]);
    }
  }

  /** Up to the first unresolvable key, every declaring key's group is installed
      in full into its own list, and no other list changes. */
  lemma {:induction false} InstallGroupsLists(t: ClassTable, m: Manager, g: map<ClassId, set<Registration>>,
                                              keys: seq<ClassId>)
    requires Valid(t)
    requires forall c :: c in keys ==> c in g && c in t.classes
    requires NoDuplicates(keys)
    ensures var s := InstallGroups(t, m, g, keys);
            var p := FirstUnresolvable(t, keys);
            forall d :: ListOf(s.mgr, d) == ListOf(m, d) + Added(t, g, keys[..p], d)
    decreases |keys|
  {
    var s := InstallGroups(t, m, g, keys);
    var p := FirstUnresolvable(t, keys);
    if keys == [] || GetRegistrationClass(t, keys[0]).Failure? {
      assert keys[..p] == [];
    } else {
      var c := keys[0];
      var rest := keys[1..];
      var k := GetRegistrationClass(t, c).value;
      var m1 := Visit(t, m, g, c, k);
      assert p == 1 + FirstUnresolvable(t, rest);
      var done := rest[..p - 1];
      assert s == InstallGroups(t, m1, g, rest);
      NoDuplicatesTail(keys);
      InstallGroupsLists(t, m1, g, rest);
      PrefixCons(keys, p);
      forall d ensures ListOf(s.mgr, d) == ListOf(m, d) + Added(t, g, keys[..p], d) {
        assert ListOf(s.mgr, d) == ListOf(m1, d) + Added(t, g, done, d);
        AddedCons(t, g, c, done, d);
      }
    }
  }

  /** The tail of a duplicate-free sequence is duplicate-free and misses the head. */
  lemma NoDuplicatesTail(keys: seq<ClassId>)
    requires NoDuplicates(keys) && keys != []
    ensures NoDuplicates(keys[1..]) && keys[0] !in keys[1..]
  {
  }

  /** Prepending a key changes what is added to that key's list only. */
  lemma AddedCons(t: ClassTable, g: map<ClassId, set<Registration>>, c: ClassId, done: seq<ClassId>, d: ClassId)
    requires Valid(t) && c !in done
    ensures d != c ==> Added(t, g, [c] + done, d) == Added(t, g, done, d)
    ensures d == c ==> Added(t, g, done, d) == multiset{}
  {
  }

  lemma PrefixCons(keys: seq<ClassId>, p: nat)
    requires 0 < p <= |keys|
    ensures keys[..p] == [keys[0]] + keys[1..][..p - 1]
  {
  }

  /** Up to the first unresolvable key, the loop logs exactly one entry per
      delegating key, in order. */
  lemma {:induction false} InstallGroupsLog(t: ClassTable, m: Manager, g: map<ClassId, set<Registration>>,
                                            keys: seq<ClassId>)
    requires Valid(t)
    requires forall c :: c in keys ==> c in g && c in t.classes
    ensures InstallGroups(t, m, g, keys).mgr.log == m.log + DelegationLog(t, keys)
    decreases |keys|
  {
    if keys != [] && GetRegistrationClass(t, keys[0]).Success? {
      var c := keys[0];
      var k := GetRegistrationClass(t, c).value;
      var m1 := Visit(t, m, g, c, k);
      InstallGroupsUnfold(t, m, g, keys);
      InstallGroupsLog(t, m1, g, keys[1..]);
      var entry := if k != c then [DelegatedClass(c, k)] else [];
      var rest := DelegationLog(t, keys[1..]);
      assert DelegationLog(t, keys) == entry + rest;
      assert m1.log == m.log + entry;
      AppendAssociative(m.log, entry, rest);
    }
  }

  /** Convenience step for `InstallGroupsLog`: regrouping the appended logs
      explicitly keeps that proof within its resource budget. */
  lemma AppendAssociative(a: seq<LogEntry>, b: seq<LogEntry>, c: seq<LogEntry>)
    ensures (a + b) + c == a + (b + c)
  {
  }

  /** `InstallGroups` together with its effect. */
  function Install(t: ClassTable, m: Manager, g: map<ClassId, set<Registration>>, keys: seq<ClassId>): (s: Step)
    requires Valid(t)
    requires forall c :: c in keys ==> c in g && c in t.classes
    requires NoDuplicates(keys)
    ensures s == InstallGroups(t, m, g, keys)
    ensures var p := FirstUnresolvable(t, keys);
            && (s.raised.Some? <==> p < |keys|)
            && (p < |keys| ==> s.raised == Some(GetRegistrationClass(t, keys[p]).error))
            && (forall d :: ListOf(s.mgr, d) == ListOf(m, d) + Added(t, g, keys[..p], d))
            && s.mgr.log == m.log + DelegationLog(t, keys)
  {
    InstallGroupsRaises(t, m, g, keys);
    InstallGroupsLists(t, m, g, keys);
    InstallGroupsLog(t, m, g, keys);
    InstallGroups(t, m, g, keys)
  }

  /** The iteration order of the discovered map: each key exactly once. */
  ghost predicate EnumeratesKeys(keys: seq<ClassId>, g: map<ClassId, set<Registration>>) {
    NoDuplicates(keys) && forall c :: c in keys <==> c in g
  }

  /** `registerEvents`: discover the listener's handlers (allocating fresh
      identities for them), then install the groups in the map's iteration order
      `keyOrder`. A throw during discovery installs nothing. */
  function RegisterEvents(t: ClassTable, m: Manager, l: Listener, owner: OwnerId, classesMissing: bool,
                          keyOrder: seq<ClassId>): (s: Step)
    requires Valid(t)
    requires var d := CreateRegisteredListeners(t, l, owner, m.nextId, classesMissing);
             d.outcome.Success? ==> EnumeratesKeys(keyOrder, d.outcome.value)
    ensures var d := CreateRegisteredListeners(t, l, owner, m.nextId, classesMissing);
            d.outcome.Failure? ==>
              && s.raised == Some(ArrayIndexOutOfBounds)
              && (forall c :: ListOf(s.mgr, c) == ListOf(m, c))
              && s.mgr.log == m.log + d.log
    ensures var d := CreateRegisteredListeners(t, l, owner, m.nextId, classesMissing);
            d.outcome.Success? ==>
              && (forall c :: c in keyOrder ==> c in t.classes)
              && var p := FirstUnresolvable(t, keyOrder);
                 && (s.raised.Some? <==> p < |keyOrder|)
                 && (p < |keyOrder| ==> s.raised == Some(GetRegistrationClass(t, keyOrder[p]).error))
                 && (forall c :: ListOf(s.mgr, c) == ListOf(m, c) + Added(t, d.outcome.value, keyOrder[..p], c))
                 && s.mgr.log == m.log + d.log + DelegationLog(t, keyOrder)
    ensures s.mgr.nextId == m.nextId + |l.methods|
    ensures forall d :: d in s.mgr.lists ==> d in m.lists || (d in t.classes && Declares(t, d))
  {
    var d := CreateRegisteredListeners(t, l, owner, m.nextId, classesMissing);
    var m1 := m.(nextId := m.nextId + |l.methods|, log := m.log + d.log);
    match d.outcome
    case Failure(e) => Step(m1, Some(e))
    case Success(g) =>
      if !classesMissing then DiscoveredKeysAreEventClasses(t, l, owner, m.nextId, g); Install(t, m1, g, keyOrder)
      else Install(t, m1, g, keyOrder)
  }

  /** `registerEvent` keeps the manager consistent: the list it grows belongs to
      a declaring class, and the new registration's identity is below the
      advanced counter. */
  lemma RegisterEventKeepsConsistent(t: ClassTable, m: Manager, c: ClassId, order: Order, executor: Executor,
                                     owner: OwnerId)
    requires Valid(t) && c in t.classes && Consistent(t, m)
    ensures Consistent(t, RegisterEvent(t, m, c, order, executor, owner).mgr)
  {
    var s := RegisterEvent(t, m, c, order, executor, owner);
    if s.raised.None? {
      var k := GetRegistrationClass(t, c).value;
      forall d | d in s.mgr.lists
        ensures d in t.classes && Declares(t, d) && forall r :: r in s.mgr.lists[d] ==> r.id < s.mgr.nextId
      {
        assert s.mgr.lists[d] == ListOf(s.mgr, d);
        if d != k {
          assert d in m.lists && ListOf(m, d) == m.lists[d];
        }
      }
    }
  }

  /** `registerEvents` keeps the manager consistent: lists appear only for
      declaring classes, and every registration it installs has an identity
      below the advanced counter. */
  lemma RegisterEventsKeepsConsistent(t: ClassTable, m: Manager, l: Listener, owner: OwnerId,
                                      classesMissing: bool, keyOrder: seq<ClassId>)
    requires Valid(t) && Consistent(t, m)
    requires var d := CreateRegisteredListeners(t, l, owner, m.nextId, classesMissing);
             d.outcome.Success? ==> EnumeratesKeys(keyOrder, d.outcome.value)
    ensures Consistent(t, RegisterEvents(t, m, l, owner, classesMissing, keyOrder).mgr)
  {
    var s := RegisterEvents(t, m, l, owner, classesMissing, keyOrder);
    var d := CreateRegisteredListeners(t, l, owner, m.nextId, classesMissing);
    forall c | c in s.mgr.lists
      ensures c in t.classes && Declares(t, c) && forall r :: r in s.mgr.lists[c] ==> r.id < s.mgr.nextId
    {
      assert s.mgr.lists[c] == ListOf(s.mgr, c);
      forall r | r in ListOf(s.mgr, c) ensures r.id < s.mgr.nextId {
        if r !in ListOf(m, c) {
          var g := d.outcome.value;
          var p := FirstUnresolvable(t, keyOrder);
          assert r in Added(t, g, keyOrder[..p], c);
          assert c in g && r in g[c];
          if !classesMissing {
            DiscoveredKeysAreEventClasses(t, l, owner, m.nextId, g);
          }
        }
      }
    }
  }

  /** Handlers discovered for a consistent manager are fresh objects: none of
      them is already in any handler list, so registering the same listener
      again adds new registrations instead of collapsing into the old ones. */
  lemma DiscoveredAreFresh(t: ClassTable, m: Manager, l: Listener, owner: OwnerId)
    requires Valid(t) && Consistent(t, m)
    requires CreateRegisteredListeners(t, l, owner, m.nextId, false).outcome.Success?
    ensures var g := CreateRegisteredListeners(t, l, owner, m.nextId, false).outcome.value;
            forall c, r, d :: c in g && r in g[c] ==> r !in ListOf(m, d)
  {
    var g := CreateRegisteredListeners(t, l, owner, m.nextId, false).outcome.value;
    DiscoveredKeysAreEventClasses(t, l, owner, m.nextId, g);
    forall c, r, d | c in g && r in g[c] ensures r !in ListOf(m, d) {
      assert r.id >= m.nextId;
      if d in m.lists {
        assert ListOf(m, d) == m.lists[d];
      }
    }
  }

  /** The two registration paths treat a delegating class differently: bulk
      registration of a group keyed by it installs nothing and logs the class it
      should have used, while `registerEvent` silently installs into that
      ancestor's list. */
  lemma DelegatingClassSingleVersusBulk(t: ClassTable, m: Manager, c: ClassId, group: set<Registration>,
                                        order: Order, executor: Executor, owner: OwnerId)
    requires Valid(t) && c in t.classes && Delegating(t, c)
    ensures var k := GetRegistrationClass(t, c).value;
            var bulk := InstallGroups(t, m, map[c := group], [c]);
            && bulk.raised.None?
            && (forall d :: ListOf(bulk.mgr, d) == ListOf(m, d))
            && bulk.mgr.log == m.log + [DelegatedClass(c, k)]
    ensures var k := GetRegistrationClass(t, c).value;
            var single := RegisterEvent(t, m, c, order, executor, owner);
            && single.raised.None?
            && ListOf(single.mgr, k) == ListOf(m, k) + multiset{Registration(m.nextId, executor, order, owner)}
  {
    var k := GetRegistrationClass(t, c).value;
    var m1 := Visit(t, m, map[c := group], c, k);
    assert InstallGroups(t, m, map[c := group], [c]) == InstallGroups(t, m1, map[c := group], []);
  }
}
