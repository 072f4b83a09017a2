/** The toast container behind `app.notify` (script.js:255-295). Each entry
    is appended to one page-wide container; a close click and a 5000 ms timer
    each lead to a 300 ms removal timer, and the removal happens only while
    the entry is still attached (`alert.parentNode`). Time is abstract: each
    timer firing is an event. The pure step functions below say what each
    event does; the `Center` class does the same in place and is proved
    against them. */
module Notifications {

  type EntryId = nat

  /** One toast: its text, its type, and whether its slide-out animation has
      been started. */
  datatype Alert = Alert(message: string, kind: string, slidingOut: bool)

  /** `type = type || 'info'`: a missing or empty type becomes "info". */
  function KindOrDefault(kind: string): (k: string)
    ensures k != ""
    ensures kind != "" ==> k == kind
    ensures kind == "" ==> k == "info"
  {
    if kind == "" then "info" else kind
  }

  datatype CenterState = CenterState(
    container: seq<EntryId>,     // the container's children, in document order
    alerts: seq<Alert>,          // every toast created so far; an id is an index
    autoTimers: set<EntryId>,    // 5000 ms timers that have not fired
    removals: multiset<EntryId>, // 300 ms removal timers that have not fired
    detached: seq<EntryId>)      // the entries removed from the container, in order

  predicate NoDup(s: seq<EntryId>) {
    forall i, j :: 0 <= i < j < |s| ==> s[i] != s[j]
  }

  /** Every toast is either attached or detached, never both, never twice. */
  predicate Inv(s: CenterState) {
    && NoDup(s.container)
    && NoDup(s.detached)
    && (forall id :: id in s.container ==> id < |s.alerts|)
    && (forall id :: id in s.detached ==> id < |s.alerts|)
    && (forall id :: id in s.autoTimers ==> id < |s.alerts|)
    && (forall id :: id in s.removals ==> id < |s.alerts| && s.alerts[id].slidingOut)
    && (forall id :: 0 <= id < |s.alerts| ==> (id in s.container <==> id !in s.detached))
  }

  const Empty := CenterState([], [], {}, multiset{}, [])

  /** The position of the first occurrence of `x`. */
  function IndexOf(s: seq<EntryId>, x: EntryId): (i: nat)
    requires x in s
    ensures i < |s| && s[i] == x && x !in s[..i]
  {
    if s[0] == x then 0 else 1 + IndexOf(s[1..], x)
  }

  /** `removeChild`: the sequence without the first occurrence of `x`, the
      others in their order. */
  function Without(s: seq<EntryId>, x: EntryId): (r: seq<EntryId>)
    ensures x !in s ==> r == s
    ensures x in s ==> r == s[..IndexOf(s, x)] + s[IndexOf(s, x) + 1..]
    ensures multiset(r) == multiset(s) - multiset{x}
  {
    if x in s then
      var i := IndexOf(s, x);
      assert s == s[..i] + [x] + s[i + 1..];
      s[..i] + s[i + 1..]
    else s
  }

  /** On a sequence without duplicates, removing `x` leaves exactly the
      other elements, still without duplicates. */
  lemma WithoutNoDup(s: seq<EntryId>, x: EntryId)
    requires NoDup(s)
    ensures NoDup(Without(s, x))
    ensures forall y :: y in Without(s, x) <==> y in s && y != x
  {
    WithoutKeepsNoDup(s, x);
    forall y ensures y in Without(s, x) <==> y in s && y != x {
      WithoutMember(s, x, y);
    }
  }

  lemma WithoutKeepsNoDup(s: seq<EntryId>, x: EntryId)
    requires NoDup(s)
    ensures NoDup(Without(s, x))
  {
    if x in s {
      SpliceNoDup(s, IndexOf(s, x));
    }
  }

  /** Cutting one position out of a sequence without duplicates. */
  lemma SpliceNoDup(s: seq<EntryId>, i: nat)
    requires NoDup(s) && i < |s|
    ensures NoDup(s[..i] + s[i + 1..])
  {
    var r := s[..i] + s[i + 1..];
    forall a, b | 0 <= a < b < |r| ensures r[a] != r[b] {
      var a' := if a < i then a else a + 1;
      var b' := if b < i then b else b + 1;
      assert r[a] == s[a'] && r[b] == s[b'];
    }
  }

  lemma WithoutMember(s: seq<EntryId>, x: EntryId, y: EntryId)
    requires NoDup(s)
    ensures y in Without(s, x) <==> y in s && y != x
  {
    var r := Without(s, x);
    assert y in r <==> y in multiset(r);
    assert y in s <==> y in multiset(s);
    if y == x && x in s {
      NoDupCount(s, x);
    }
  }

  lemma {:induction false} NoDupCount(s: seq<EntryId>, x: EntryId)
    requires NoDup(s) && x in s
    ensures multiset(s)[x] == 1
  {
    if s[0] == x {
      assert s == [x] + s[1..];
      assert x !in s[1..];
    } else {
      assert s == [s[0]] + s[1..];
      NoDupCount(s[1..], x);
    }
  }

  /** `notify(message, type)`: a new toast at the end of the container, with
      its 5000 ms timer running. */
  function AfterNotify(s: CenterState, message: string, kind: string): (r: CenterState)
    ensures r.container == s.container + [|s.alerts|]
    ensures r.alerts == s.alerts + [Alert(message, KindOrDefault(kind), false)]
    ensures r.alerts[|s.alerts|].kind != "" && !r.alerts[|s.alerts|].slidingOut
    ensures r.autoTimers == s.autoTimers + {|s.alerts|}
    ensures r.removals == s.removals && r.detached == s.detached
  {
    var id := |s.alerts|;
    s.(container := s.container + [id],
       alerts := s.alerts + [Alert(message, KindOrDefault(kind), false)],
       autoTimers := s.autoTimers + {id})
  }

  /** A click on the close button: start the slide-out and a removal timer.
      The 5000 ms timer is not cancelled. */
  function AfterClose(s: CenterState, id: EntryId): (r: CenterState)
    requires Inv(s) && id in s.container
    ensures r.container == s.container && r.detached == s.detached
    ensures |r.alerts| == |s.alerts| && r.alerts[id].slidingOut
    ensures forall j :: 0 <= j < |s.alerts| && j != id ==> r.alerts[j] == s.alerts[j]
    ensures r.removals == s.removals + multiset{id} && r.autoTimers == s.autoTimers
  {
    s.(alerts := s.alerts[id := s.alerts[id].(slidingOut := true)],
       removals := s.removals + multiset{id})
  }

  /** The 5000 ms timer: only an entry still attached starts its slide-out
      and a removal timer. */
  function AfterAuto(s: CenterState, id: EntryId): (r: CenterState)
    requires Inv(s) && id in s.autoTimers
    ensures r.autoTimers == s.autoTimers - {id}
    ensures r.container == s.container && r.detached == s.detached
    ensures |r.alerts| == |s.alerts|
    ensures id in s.container ==> r.alerts[id].slidingOut && r.removals == s.removals + multiset{id}
    ensures id !in s.container ==> r.alerts == s.alerts && r.removals == s.removals
  {
    var t := s.(autoTimers := s.autoTimers - {id});
    if id in s.container then
      t.(alerts := s.alerts[id := s.alerts[id].(slidingOut := true)],
         removals := s.removals + multiset{id})
    else t
  }

  /** A 300 ms removal timer: detach the entry if it is still attached. */
  function AfterRemove(s: CenterState, id: EntryId): (r: CenterState)
    requires Inv(s) && id in s.removals
    ensures r.removals == s.removals - multiset{id} && r.alerts == s.alerts
    ensures forall y :: y in r.container <==> y in s.container && y != id
    ensures r.detached == s.detached + (if id in s.container then [id] else [])
  {
    WithoutNoDup(s.container, id);
    var t := s.(removals := s.removals - multiset{id});
    if id in s.container then
      t.(container := Without(s.container, id), detached := s.detached + [id])
    else t
  }

  lemma NotifyKeepsInv(s: CenterState, message: string, kind: string)
    requires Inv(s)
    ensures Inv(AfterNotify(s, message, kind))
    ensures AfterNotify(s, message, kind).container == s.container + [|s.alerts|]
    ensures AfterNotify(s, message, kind).alerts[|s.alerts|] == Alert(message, KindOrDefault(kind), false)
  {
    var id := |s.alerts|;
    var t := AfterNotify(s, message, kind);
    assert id !in s.container;
    forall i, j | 0 <= i < j < |t.container| ensures t.container[i] != t.container[j] {
      if j == |s.container| { assert t.container[i] in s.container; }
    }
  }

  lemma CloseKeepsInv(s: CenterState, id: EntryId)
    requires Inv(s) && id in s.container
    ensures Inv(AfterClose(s, id))
    ensures AfterClose(s, id).container == s.container && AfterClose(s, id).detached == s.detached
  {
  }

  lemma AutoKeepsInv(s: CenterState, id: EntryId)
    requires Inv(s) && id in s.autoTimers
    ensures Inv(AfterAuto(s, id))
    ensures AfterAuto(s, id).container == s.container && AfterAuto(s, id).detached == s.detached
  {
  }

  lemma RemoveKeepsInv(s: CenterState, id: EntryId)
    requires Inv(s) && id in s.removals
    ensures Inv(AfterRemove(s, id))
  {
    var t := AfterRemove(s, id);
    if id in s.container {
      WithoutNoDup(s.container, id);
      assert id !in s.detached;
      forall i, j | 0 <= i < j < |t.detached| ensures t.detached[i] != t.detached[j] {
        if j == |s.detached| { assert t.detached[i] in s.detached; }
      }
    }
  }

  /** The 5000 ms timer of an entry that is already gone changes nothing but
      its own pending status: no slide-out, no second removal timer. */
  lemma AutoAfterGone(s: CenterState, id: EntryId)
    requires Inv(s) && id in s.autoTimers && id !in s.container
    ensures AfterAuto(s, id) == s.(autoTimers := s.autoTimers - {id})
  {
  }

  /** A removal timer for an entry already detached is a no-op on the
      container: the `parentNode` guard makes removal happen at most once. */
  lemma RemoveAtMostOnce(s: CenterState, id: EntryId)
    requires Inv(s) && id in s.removals && id in s.detached
    ensures AfterRemove(s, id).container == s.container
    ensures AfterRemove(s, id).detached == s.detached
  {
  }

  // ---------------------------------------------------------------------
  // Any interleaving of events

  datatype Event =
    | NotifyEvent(message: string, kind: string)
    | CloseClick(id: EntryId)
    | AutoFire(id: EntryId)
    | RemoveFire(id: EntryId)

  /** Whether the event can happen in state `s`: a close button can only be
      clicked while its toast is attached, and a timer fires only if pending. */
  predicate Enabled(s: CenterState, e: Event) {
    match e
    case NotifyEvent(_, _) => true
    case CloseClick(id) => id in s.container
    case AutoFire(id) => id in s.autoTimers
    case RemoveFire(id) => id in s.removals
  }

  function Step(s: CenterState, e: Event): CenterState
    requires Inv(s) && Enabled(s, e)
  {
    match e
    case NotifyEvent(m, k) => AfterNotify(s, m, k)
    case CloseClick(id) => AfterClose(s, id)
    case AutoFire(id) => AfterAuto(s, id)
    case RemoveFire(id) => AfterRemove(s, id)
  }

  lemma StepKeepsInv(s: CenterState, e: Event)
    requires Inv(s) && Enabled(s, e)
    ensures Inv(Step(s, e))
    ensures |s.detached| <= |Step(s, e).detached| <= |s.detached| + 1
    ensures Step(s, e).detached[..|s.detached|] == s.detached
  {
    match e
    case NotifyEvent(m, k) => NotifyKeepsInv(s, m, k);
    case CloseClick(id) => CloseKeepsInv(s, id);
    case AutoFire(id) => AutoKeepsInv(s, id);
    case RemoveFire(id) => RemoveKeepsInv(s, id);
  }

  /** The state after the enabled events of a trace (an event that cannot
      happen is skipped). */
  function Run(s: CenterState, trace: seq<Event>): (r: CenterState)
    requires Inv(s)
    ensures Inv(r)
    ensures |s.detached| <= |r.detached| && r.detached[..|s.detached|] == s.detached
    decreases |trace|
  {
    if trace == [] then s
    else
      var s' := if Enabled(s, trace[0]) then Step(s, trace[0]) else s;
      StepKeepsInvIfEnabled(s, trace[0]);
      Run(s', trace[1..])
  }

  lemma StepKeepsInvIfEnabled(s: CenterState, e: Event)
    requires Inv(s)
    ensures Enabled(s, e) ==> Inv(Step(s, e))
    ensures Enabled(s, e) ==> |s.detached| <= |Step(s, e).detached| && Step(s, e).detached[..|s.detached|] == s.detached
  {
    if Enabled(s, e) { StepKeepsInv(s, e); }
  }

  /** Whatever the interleaving of notifications, close clicks and timers,
      every toast leaves the container at most once and only a created toast
      leaves it. */
  lemma RemovedAtMostOnce(trace: seq<Event>)
    ensures NoDup(Run(Empty, trace).detached)
    ensures forall id :: id in Run(Empty, trace).detached ==> id < |Run(Empty, trace).alerts|
  {
  }

  // ---------------------------------------------------------------------
  // The container as the page holds it

  class Center {
    var container: seq<EntryId>
    var alerts: seq<Alert>
    var autoTimers: set<EntryId>
    var removals: multiset<EntryId>
    ghost var detached: seq<EntryId>

    ghost function State(): CenterState
      reads this
    {
      CenterState(container, alerts, autoTimers, removals, detached)
    }

    ghost predicate Valid()
      reads this
    {
      Inv(State())
    }

    /** The empty container `initForms` appends to the body. */
    constructor ()
      ensures Valid() && State() == Empty
    {
      container, alerts, autoTimers, removals := [], [], {}, multiset{};
      detached := [];
    }

    method Notify(message: string, kind: string) returns (id: EntryId)
      requires Valid()
      modifies this
      ensures Valid()
      ensures id == |old(alerts)| && State() == AfterNotify(old(State()), message, kind)
    {
      NotifyKeepsInv(State(), message, kind);
      id := |alerts|;
      alerts := alerts + [Alert(message, KindOrDefault(kind), false)];
      container := container + [id];
      autoTimers := autoTimers + {id};
    }

    method CloseClick(id: EntryId)
      requires Valid() && id in container
      modifies this
      ensures Valid()
      ensures State() == AfterClose(old(State()), id)
    {
      CloseKeepsInv(State(), id);
      alerts := alerts[id := alerts[id].(slidingOut := true)];
      removals := removals + multiset{id};
    }

    method AutoFire(id: EntryId)
      requires Valid() && id in autoTimers
      modifies this
      ensures Valid()
      ensures State() == AfterAuto(old(State()), id)
    {
      AutoKeepsInv(State(), id);
      autoTimers := autoTimers - {id};
      if id in container {
        alerts := alerts[id := alerts[id].(slidingOut := true)];
        removals := removals + multiset{id};
      }
    }

    method RemoveFire(id: EntryId)
      requires Valid() && id in removals
      modifies this
      ensures Valid()
      ensures State() == AfterRemove(old(State()), id)
    {
      RemoveKeepsInv(State(), id);
      removals := removals - multiset{id};
      if id in container {
        container := Without(container, id);
        detached := detached + [id];
      }
    }
  }
}
