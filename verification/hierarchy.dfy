/** Walking the class hierarchy: the superclass chain, the subtype test
    (`isAssignableFrom`), and the resolution of the class whose handler list an
    event class registers into (`getRegistrationClass`). */
module Hierarchy {
  import opened Wrappers
  import opened Events

  /** The superclass chain of `c`: `c`, its superclass, that class's superclass,
      and so on up to the class without a superclass. */
  function Chain(t: ClassTable, c: ClassId): (s: seq<ClassId>)
    requires Valid(t) && c in t.classes
    ensures |s| >= 1 && s[0] == c
    ensures forall i :: 0 <= i < |s| ==> s[i] in t.classes
    ensures t.classes[s[|s| - 1]].parent.None?
    decreases t.classes[c].depth
  {
    assert ParentBelow(t, c);
    match t.classes[c].parent
    case None => [c]
    case Some(p) => [c] + Chain(t, p)
  }

  /** `sup.isAssignableFrom(sub)` for classes: `sup` lies on the superclass chain
      of `sub`. A class that is not loaded is not a subtype of anything. */
  predicate IsSubclass(t: ClassTable, sub: ClassId, sup: ClassId): (b: bool)
    requires Valid(t)
    ensures b ==> sub in t.classes && sup in t.classes
  {
    sub in t.classes && sup in Chain(t, sub)
  }

  /** Subtyping is a preorder: every loaded class is a subtype of itself, and a
      superclass of a superclass of `a` is a superclass of `a`. */
  lemma {:induction false} SubclassTransitive(t: ClassTable, a: ClassId, b: ClassId, c: ClassId)
    requires Valid(t)
    requires IsSubclass(t, a, b) && IsSubclass(t, b, c)
    ensures IsSubclass(t, a, a)
    ensures IsSubclass(t, a, c)
    decreases t.classes[a].depth
  {
    assert ParentBelow(t, a);
    if a != b {
      var p := t.classes[a].parent.value;
      assert Chain(t, a) == [a] + Chain(t, p);
      assert b in Chain(t, p);
      SubclassTransitive(t, p, b, c);
    }
  }

  /** `Event.class.isAssignableFrom(c)`. */
  predicate IsEventClass(t: ClassTable, c: ClassId)
    requires Valid(t)
  {
    IsSubclass(t, c, t.eventRoot)
  }

  /** A class the walk may step into: a proper subclass of the root `Event` class. */
  predicate Steppable(t: ClassTable, d: ClassId)
    requires Valid(t)
  {
    d != t.eventRoot && IsEventClass(t, d)
  }

  /** `getRegistrationClass`: `c` itself when it declares `getHandlerList`,
      otherwise the same question asked of its superclass, provided that
      superclass exists, is not the root `Event` class and is an event class;
      otherwise `IllegalArgumentException` naming the class where the walk stopped. */
  function GetRegistrationClass(t: ClassTable, c: ClassId): (r: Result<ClassId, Throwable>)
    requires Valid(t) && c in t.classes
    ensures r.Success? ==> r.value in Chain(t, c) && r.value in t.classes && Declares(t, r.value)
    ensures Declares(t, c) ==> r == Success(c)
    ensures r.Success? && r.value != c ==> Steppable(t, r.value)
    ensures r.Failure? ==> r.error.IllegalArgument? && r.error.cls in Chain(t, c)
    decreases t.classes[c].depth
  {
    assert ParentBelow(t, c);
    if Declares(t, c) then Success(c)
    else
      match t.classes[c].parent
      case Some(p) =>
        if p != t.eventRoot && IsEventClass(t, p) then GetRegistrationClass(t, p)
        else Failure(IllegalArgument(c))
      case None => Failure(IllegalArgument(c))
  }

  /** The reference definition of resolution: `r` is the first class on the
      superclass chain of `c` that declares a handler list, and every class the
      walk passes after `c` up to `r` is a proper subclass of `Event`. */
  ghost predicate NearestDeclaring(t: ClassTable, c: ClassId, r: ClassId)
    requires Valid(t) && c in t.classes
  {
    exists k :: NearestAt(t, c, r, k)
  }

  /** `r` is the nearest declaring class of `c`, found `k` steps up the chain. */
  ghost predicate NearestAt(t: ClassTable, c: ClassId, r: ClassId, k: int)
    requires Valid(t) && c in t.classes
  {
    var s := Chain(t, c);
    && 0 <= k < |s| && s[k] == r && Declares(t, r)
    && (forall j :: 0 <= j < k ==> !Declares(t, s[j]))
    && (forall j :: 0 < j <= k ==> Steppable(t, s[j]))
  }

  /** A nearest declaring class found above `c` is found one step less above
      its superclass, which the walk may step into. */
  lemma NearestAtParent(t: ClassTable, c: ClassId, r: ClassId, k: int)
    requires Valid(t) && c in t.classes
    requires NearestAt(t, c, r, k) && k > 0
    ensures !Declares(t, c) && t.classes[c].parent.Some?
    ensures var p := t.classes[c].parent.value;
            p in t.classes && Steppable(t, p) && NearestAt(t, p, r, k - 1)
  {
    assert ParentBelow(t, c);
    var s := Chain(t, c);
    var p := t.classes[c].parent.value;
    var sp := Chain(t, p);
    assert s == [c] + sp;
    assert Steppable(t, s[1]) && s[1] == p;
    forall j | 0 <= j < k - 1 ensures !Declares(t, sp[j]) {
      assert sp[j] == s[j + 1];
    }
    forall j | 0 < j <= k - 1 ensures Steppable(t, sp[j]) {
      assert sp[j] == s[j + 1];
    }
  }

  /** Conversely, a class that does not declare a list and whose superclass
      may be stepped into has the nearest declaring class of that superclass,
      one step further up. */
  lemma NearestAtChild(t: ClassTable, c: ClassId, r: ClassId, k: int)
    requires Valid(t) && c in t.classes && !Declares(t, c)
    requires t.classes[c].parent.Some?
    requires var p := t.classes[c].parent.value;
             p in t.classes && Steppable(t, p) && NearestAt(t, p, r, k)
    ensures NearestAt(t, c, r, k + 1)
  {
    assert ParentBelow(t, c);
    var s := Chain(t, c);
    var p := t.classes[c].parent.value;
    var sp := Chain(t, p);
    assert s == [c] + sp;
    forall j | 0 < j <= k + 1 ensures Steppable(t, s[j]) {
      assert s[j] == sp[j - 1];
    }
    forall j | 0 <= j < k + 1 ensures !Declares(t, s[j]) {
      if j > 0 { assert s[j] == sp[j - 1]; }
    }
  }

  /** A successful resolution returns the nearest declaring class reachable
      without stepping into the root `Event` class. */
  lemma {:induction false} ResolveSound(t: ClassTable, c: ClassId)
    requires Valid(t) && c in t.classes
    requires GetRegistrationClass(t, c).Success?
    ensures NearestDeclaring(t, c, GetRegistrationClass(t, c).value)
    decreases t.classes[c].depth
  {
    assert ParentBelow(t, c);
    var r := GetRegistrationClass(t, c).value;
    if Declares(t, c) {
      assert NearestAt(t, c, r, 0);
    } else {
      var p := t.classes[c].parent.value;
      ResolveSound(t, p);
      var k :| NearestAt(t, p, r, k);
      NearestAtChild(t, c, r, k);
    }
  }

  /** Whenever a nearest declaring class exists, resolution succeeds and
      returns it; with the lemma above, resolution throws exactly when no such
      class exists. */
  lemma {:induction false} ResolveComplete(t: ClassTable, c: ClassId, r: ClassId)
    requires Valid(t) && c in t.classes
    requires NearestDeclaring(t, c, r)
    ensures GetRegistrationClass(t, c) == Success(r)
    decreases t.classes[c].depth
  {
    assert ParentBelow(t, c);
    var k :| NearestAt(t, c, r, k);
    if k > 0 {
      NearestAtParent(t, c, r, k);
      ResolveComplete(t, t.classes[c].parent.value, r);
    }
  }

  /** Resolving the result of a resolution gives the same class back, so the
      registration class of a registration class is itself. */
  lemma ResolveIdempotent(t: ClassTable, c: ClassId)
    requires Valid(t) && c in t.classes
    requires GetRegistrationClass(t, c).Success?
    ensures GetRegistrationClass(t, GetRegistrationClass(t, c).value) == GetRegistrationClass(t, c)
  {
  }

  /** The root `Event` class is never reached by the recursion: it can be the
      result only when it is the class asked about. */
  lemma RootNeverReached(t: ClassTable, c: ClassId)
    requires Valid(t) && c in t.classes
    requires c != t.eventRoot
    ensures GetRegistrationClass(t, c) != Success(t.eventRoot)
  {
  }
}
