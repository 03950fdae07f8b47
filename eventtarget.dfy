/** The listener registry mixed into the RFB client and its helpers: per
    event type an insertion-ordered set of callbacks, which `dispatchEvent`
    calls in that order.

    A callback is foreign code and is known here by its identity. The only
    effect of a callback that the model keeps is whether it calls
    `preventDefault()` on the event, given by a function `prevents`; the
    calls themselves are recorded in an invocation log. */
module EventTarget {

  /** The identity of a callback function. */
  type Callback = nat

  /** A JavaScript `Set` as the sequence of its elements in insertion
      order, each once. */
  ghost predicate Distinct(s: seq<Callback>)
  {
    forall i, j :: 0 <= i < j < |s| ==> s[i] != s[j]
  }

  /** `Set.add`: a new element goes last, an element already there keeps
      its place. */
  function Insert(s: seq<Callback>, c: Callback): (r: seq<Callback>)
    ensures forall x :: x in r <==> x in s || x == c
    ensures |s| <= |r| <= |s| + 1 && r[..|s|] == s
    ensures Distinct(s) ==> Distinct(r)
  {
    if c in s then s else s + [c]
  }

  /** `Set.delete`: the element goes, the others keep their order. */
  function Delete(s: seq<Callback>, c: Callback): (r: seq<Callback>)
    ensures forall x :: x in r <==> x in s && x != c
    ensures Distinct(s) ==> Distinct(r) && |r| == |s| - (if c in s then 1 else 0)
  {
    if s == [] then []
    else if s[0] == c then Delete(s[1..], c)
    else
      DistinctTail(s);
      [s[0]] + Delete(s[1..], c)
  }

  /** The rest of a set is a set without its first element. */
  lemma {:induction false} DistinctTail(s: seq<Callback>)
    requires s != []
    ensures Distinct(s) ==> s[0] !in s[1..] && Distinct(s[1..])
  {
    if Distinct(s) {
      forall k | 0 <= k < |s[1..]| ensures s[1..][k] != s[0] {
        assert s[1..][k] == s[k + 1];
      }
      forall i, j | 0 <= i < j < |s[1..]| ensures s[1..][i] != s[1..][j] {
        assert s[1..][i] == s[i + 1] && s[1..][j] == s[j + 1];
      }
    }
  }

  /** The `_listeners` map: for each event type seen, its set. */
  type Listeners = map<string, seq<Callback>>

  ghost predicate Valid(m: Listeners)
  {
    forall t :: t in m ==> Distinct(m[t])
  }

  /** The callbacks registered for type `t`, none when it has no set. */
  function Handlers(m: Listeners, t: string): seq<Callback>
  {
    if t in m then m[t] else []
  }

  /** `addEventListener(t, c)`: the set of `t` is created on first use. */
  function Add(m: Listeners, t: string, c: Callback): (r: Listeners)
    ensures Valid(m) ==> Valid(r)
    ensures t in r && forall u :: u != t ==> (u in r <==> u in m) && Handlers(r, u) == Handlers(m, u)
  {
    m[t := Insert(Handlers(m, t), c)]
  }

  /** `removeEventListener(t, c)`: nothing happens for a type without a
      set; a set emptied this way stays in the map. */
  function Remove(m: Listeners, t: string, c: Callback): (r: Listeners)
    ensures Valid(m) ==> Valid(r)
    ensures r.Keys == m.Keys
    ensures forall u :: u != t ==> Handlers(r, u) == Handlers(m, u)
  {
    if t in m then m[t := Delete(m[t], c)] else m
  }

  /** An event: its type, whether `preventDefault()` has any effect on it,
      and whether it has already been prevented. */
  datatype Event = Event(eventType: string, cancelable: bool, defaultPrevented: bool)

  /** One call of a callback, with the type of the event it was given. */
  datatype Invocation = Invocation(callback: Callback, eventType: string)

  function Invocations(cs: seq<Callback>, t: string): (r: seq<Invocation>)
    ensures |r| == |cs| && forall i :: 0 <= i < |cs| ==> r[i] == Invocation(cs[i], t)
  {
    if cs == [] then [] else [Invocation(cs[0], t)] + Invocations(cs[1..], t)
  }

  /** Whether one of the callbacks `cs` calls `preventDefault()`. */
  ghost predicate AnyPrevents(cs: seq<Callback>, prevents: Callback -> bool)
  {
    exists i :: 0 <= i < |cs| && prevents(cs[i])
  }

  /** `event.defaultPrevented` after the callbacks `cs` have run. */
  ghost predicate PreventedAfter(e: Event, cs: seq<Callback>, prevents: Callback -> bool)
  {
    e.defaultPrevented || (e.cancelable && AnyPrevents(cs, prevents))
  }

  /** What `dispatchEvent(e)` returns: true for a type that has no set,
      and otherwise whether the event was not prevented once every
      callback of its set has run. */
  ghost function DispatchResult(m: Listeners, e: Event, prevents: Callback -> bool): bool
  {
    if e.eventType !in m then true else !PreventedAfter(e, m[e.eventType], prevents)
  }

  /* ---------- Properties ---------- */

  /** Adding the same callback twice leaves one registration. */
  lemma {:induction false} AddTwice(m: Listeners, t: string, c: Callback)
    ensures Add(Add(m, t, c), t, c) == Add(m, t, c)
  {
  }

  /** The first listener of a type creates its set; a later one goes to
      the end of it, unless it is already there. */
  lemma {:induction false} AddOrder(m: Listeners, t: string, c: Callback)
    ensures t !in m ==> Handlers(Add(m, t, c), t) == [c]
    ensures c in Handlers(m, t) ==> Handlers(Add(m, t, c), t) == Handlers(m, t)
    ensures c !in Handlers(m, t) ==> Handlers(Add(m, t, c), t) == Handlers(m, t) + [c]
  {
  }

  /** Removing a listener of an unknown type changes nothing; otherwise
      only that callback leaves that type's set, and the set stays. */
  lemma {:induction false} RemoveOnly(m: Listeners, t: string, c: Callback)
    requires Valid(m)
    ensures t !in m ==> Remove(m, t, c) == m
    ensures t in m ==> t in Remove(m, t, c) &&
                       (forall x :: x in Handlers(Remove(m, t, c), t) <==> x in Handlers(m, t) && x != c) &&
                       |Handlers(Remove(m, t, c), t)| == |Handlers(m, t)| - (if c in m[t] then 1 else 0)
  {
  }

  /** Removing a callback just added to an existing set restores the
      registry. */
  lemma {:induction false} DeleteInsert(s: seq<Callback>, c: Callback)
    requires c !in s
    ensures Delete(Insert(s, c), c) == s
  {
    DeleteAbsent(s, c);
    DeleteLast(s, c);
  }

  lemma {:induction false} DeleteAbsent(s: seq<Callback>, c: Callback)
    requires c !in s
    ensures Delete(s, c) == s
  {
    if s != [] {
      DeleteAbsent(s[1..], c);
      assert [s[0]] + s[1..] == s;
    }
  }

  lemma {:induction false} DeleteLast(s: seq<Callback>, c: Callback)
    requires c !in s
    ensures Delete(s + [c], c) == Delete(s, c)
  {
    if s == [] {
      assert [c][1..] == [];
    } else {
      assert (s + [c])[0] == s[0] && (s + [c])[1..] == s[1..] + [c];
      DeleteLast(s[1..], c);
    }
  }

  lemma {:induction false} AddRemove(m: Listeners, t: string, c: Callback)
    requires t in m && c !in m[t]
    ensures Remove(Add(m, t, c), t, c) == m
  {
    DeleteInsert(m[t], c);
  }

  /** Once its last listener is removed a type keeps its empty set, so an
      event of that type is no longer answered with a plain true but with
      whether it was already prevented. */
  lemma {:induction false} RemoveLast(m: Listeners, e: Event, c: Callback, prevents: Callback -> bool)
    requires e.eventType in m && m[e.eventType] == [c]
    ensures Handlers(Remove(m, e.eventType, c), e.eventType) == []
    ensures DispatchResult(Remove(m, e.eventType, c), e, prevents) == !e.defaultPrevented
  {
    assert [c][1..] == [];
  }

  /** An event whose type has no set calls nothing and yields true, even
      an event already prevented. */
  lemma {:induction false} DispatchUnknown(m: Listeners, e: Event, prevents: Callback -> bool)
    requires e.eventType !in m
    ensures Handlers(m, e.eventType) == [] && DispatchResult(m, e, prevents)
  {
  }

  /** A registered type yields false exactly when the event was already
      prevented, or is cancelable and one of its callbacks prevents it. */
  lemma {:induction false} DispatchRegistered(m: Listeners, e: Event, prevents: Callback -> bool)
    requires e.eventType in m
    ensures !DispatchResult(m, e, prevents) <==>
            e.defaultPrevented || (e.cancelable && exists c :: c in m[e.eventType] && prevents(c))
  {
    var cs := m[e.eventType];
    if e.cancelable && (exists c :: c in cs && prevents(c)) {
      var c :| c in cs && prevents(c);
      var i :| 0 <= i < |cs| && cs[i] == c;
      assert AnyPrevents(cs, prevents);
    }
  }

  /** One more callback called: one more invocation, and the event
      prevented if it was or that callback prevents it. */
  lemma {:induction false} DispatchStep(e: Event, cs: seq<Callback>, i: nat, prevents: Callback -> bool)
    requires i < |cs|
    ensures Invocations(cs[..i + 1], e.eventType) == Invocations(cs[..i], e.eventType) + [Invocation(cs[i], e.eventType)]
    ensures PreventedAfter(e, cs[..i + 1], prevents) == (PreventedAfter(e, cs[..i], prevents) || (e.cancelable && prevents(cs[i])))
  {
    InvocationsSnoc(cs, i, e.eventType);
    PreventsSnoc(cs, i, prevents);
  }

  lemma {:induction false} InvocationsSnoc(cs: seq<Callback>, i: nat, t: string)
    requires i < |cs|
    ensures Invocations(cs[..i + 1], t) == Invocations(cs[..i], t) + [Invocation(cs[i], t)]
  {
    var a, b := Invocations(cs[..i + 1], t), Invocations(cs[..i], t) + [Invocation(cs[i], t)];
    forall k | 0 <= k < i + 1 ensures a[k] == b[k] {
      assert cs[..i + 1][k] == cs[k];
      if k < i {
        assert cs[..i][k] == cs[k];
      }
    }
    assert a == b;
  }

  lemma {:induction false} PreventsSnoc(cs: seq<Callback>, i: nat, prevents: Callback -> bool)
    requires i < |cs|
    ensures AnyPrevents(cs[..i + 1], prevents) == (AnyPrevents(cs[..i], prevents) || prevents(cs[i]))
  {
    if AnyPrevents(cs[..i + 1], prevents) && !prevents(cs[i]) {
      var k :| 0 <= k < i + 1 && prevents(cs[..i + 1][k]);
      assert cs[..i][k] == cs[k];
    }
    if AnyPrevents(cs[..i], prevents) {
      var k :| 0 <= k < i && prevents(cs[..i][k]);
      assert cs[..i + 1][k] == cs[k];
    }
    assert cs[..i + 1][i] == cs[i];
  }

  class EventTargetMixin {
    var listeners: Listeners
    /** Every callback call made by `dispatchEvent`, in order. */
    var invoked: seq<Invocation>

    constructor()
      ensures listeners == map[] && invoked == []
    {
      listeners := map[];
      invoked := [];
    }

    method AddEventListener(t: string, c: Callback)
      modifies this
      ensures listeners == Add(old(listeners), t, c) && invoked == old(invoked)
    {
      if t !in listeners {
        listeners := listeners[t := []];
      }
      listeners := listeners[t := Insert(listeners[t], c)];
    }

    method RemoveEventListener(t: string, c: Callback)
      modifies this
      ensures listeners == Remove(old(listeners), t, c) && invoked == old(invoked)
    {
      if t in listeners {
        listeners := listeners[t := Delete(listeners[t], c)];
      }
    }

    /** The `forEach` over the type's set: each callback is called with
        the event, in insertion order; the registry is left alone. */
    method DispatchEvent(e: Event, prevents: Callback -> bool) returns (r: bool)
      modifies this
      ensures listeners == old(listeners)
      ensures invoked == old(invoked) + Invocations(Handlers(listeners, e.eventType), e.eventType)
      ensures r == DispatchResult(listeners, e, prevents)
    {
      if e.eventType !in listeners {
        assert Invocations([], e.eventType) == [];
        return true;
      }
      var cs := listeners[e.eventType];
      var prevented := e.defaultPrevented;
      var i := 0;
      while i < |cs|
        invariant i <= |cs| && listeners == old(listeners)
        invariant invoked == old(invoked) + Invocations(cs[..i], e.eventType)
        invariant prevented == PreventedAfter(e, cs[..i], prevents)
      {
        invoked := invoked + [Invocation(cs[i], e.eventType)];
        if e.cancelable && prevents(cs[i]) {
          prevented := true;
        }
        DispatchStep(e, cs, i, prevents);
        i := i + 1;
      }
      assert cs[..i] == cs;
      r := !prevented;
    }
  }
}
