// Repeated timers: objects that own an event registered with the event loop and the callback the
// event runs, and hand both over by swapping.

module Timers {
  import opened Bytes

  /** A RepeatedTimer: timer_ and callback_. */
  datatype Timer = Timer(event: Option<nat>, callback: Option<nat>)

  const UNARMED := Timer(None, None)

  /** The event loop and the objects around it: the registered events with the callback each will be
      given, the callback objects that are alive with what they run, and the RepeatedTimer objects by
      address. No event or callback gets a number twice. */
  datatype Loop = Loop(events: map<nat, nat>, live: map<nat, nat>, timers: map<nat, Timer>, next: nat)

  datatype Op =
    | Empty(at: nat)                       // RepeatedTimer()
    | Arm(at: nat, what: nat)              // RepeatedTimer(loop, interval, f, args...)
    | Move(at: nat, from: nat)             // RepeatedTimer(RepeatedTimer &&)
    | Assign(at: nat, from: nat)           // operator=(RepeatedTimer &&)
    | Clear(at: nat)
    | Destroy(at: nat)
    | Fire(event: nat)                     // the event comes due

  /** The objects an operation names exist, and the ones it makes do not. */
  predicate Proper(l: Loop, op: Op) {
    match op
    case Empty(at) => at !in l.timers
    case Arm(at, _) => at !in l.timers
    case Move(at, from) => at !in l.timers && from in l.timers
    case Assign(at, from) => at in l.timers && from in l.timers
    case Clear(at) => at in l.timers
    case Destroy(at) => at in l.timers
    case Fire(event) => event in l.events
  }

  /** Frees the event of a timer, if it has one; the callback object stays. None when the event was
      not registered: freed before. */
  function Cleared(l: Loop, at: nat): Option<Loop>
    requires at in l.timers
  {
    var t := l.timers[at];
    if t.event.None? then Some(l)
    else if t.event.value !in l.events then None
    else Some(l.(events := l.events - {t.event.value}, timers := l.timers[at := t.(event := None)]))
  }

  /** Destroys the callback object of a timer and the timer. None when it was destroyed before. */
  function Gone(l: Loop, at: nat): Option<Loop>
    requires at in l.timers
  {
    var t := l.timers[at];
    if t.callback.None? then Some(l.(timers := l.timers - {at}))
    else if t.callback.value !in l.live then None
    else Some(l.(live := l.live - {t.callback.value}, timers := l.timers - {at}))
  }

  function Emptied(l: Loop, at: nat): Loop {
    l.(timers := l.timers[at := UNARMED])
  }

  function Swapped(l: Loop, at: nat, from: nat): Loop
    requires at in l.timers && from in l.timers
  {
    l.(timers := l.timers[at := l.timers[from]][from := l.timers[at]])
  }

  /** None: the operation touches an event or a callback that no longer exists. */
  function Step(l: Loop, op: Op): Option<Loop>
    requires Proper(l, op)
  {
    match op
    case Empty(at) => Some(Emptied(l, at))
    case Arm(at, what) =>
      Some(Loop(l.events[l.next + 1 := l.next], l.live[l.next := what],
                l.timers[at := Timer(Some(l.next + 1), Some(l.next))], l.next + 2))
    case Move(at, from) => Some(Swapped(Emptied(l, at), at, from))
    case Assign(at, from) => Some(Swapped(l, at, from))
    case Clear(at) => Cleared(l, at)
    case Destroy(at) =>
      var r := Cleared(l, at);
      if r.None? then None else Gone(r.value, at)
    case Fire(event) => if l.events[event] in l.live then Some(l) else None
  }

  predicate HasEvent(l: Loop, at: nat, e: nat) {
    at in l.timers && l.timers[at].event == Some(e)
  }

  predicate HasCallback(l: Loop, at: nat, c: nat) {
    at in l.timers && l.timers[at].callback == Some(c)
  }

  /** Each registered event belongs to exactly one timer and is given that timer's callback, which is
      alive; each live callback belongs to exactly one timer. */
  ghost predicate WF(l: Loop) {
    && (forall a, e | HasEvent(l, a, e) :: e in l.events && HasCallback(l, a, l.events[e]))
    && (forall a, c | HasCallback(l, a, c) :: c in l.live)
    && (forall a, b, e | HasEvent(l, a, e) && HasEvent(l, b, e) :: a == b)
    && (forall a, b, c | HasCallback(l, a, c) && HasCallback(l, b, c) :: a == b)
    && (forall e | e in l.events :: e < l.next && exists a :: HasEvent(l, a, e))
    && (forall c | c in l.live :: c < l.next && exists a :: HasCallback(l, a, c))
  }

  lemma EmptiedKeeps(l: Loop, at: nat)
    requires WF(l) && at !in l.timers
    ensures WF(Emptied(l, at))
  {
    var m := Emptied(l, at);
    assert forall a, c :: HasCallback(m, a, c) <==> HasCallback(l, a, c);
    assert forall a, e :: HasEvent(m, a, e) <==> HasEvent(l, a, e);
    Found(l, m, a => a);
  }

  /** Every event and callback still belongs to some timer when `to` says where each timer's things
      went. */
  lemma Found(l: Loop, m: Loop, to: nat -> nat)
    requires WF(l) && m.events.Keys <= l.events.Keys && m.live.Keys <= l.live.Keys
    requires forall a, e | HasEvent(l, a, e) && e in m.events :: HasEvent(m, to(a), e)
    requires forall a, c | HasCallback(l, a, c) && c in m.live :: HasCallback(m, to(a), c)
    ensures forall e | e in m.events :: exists a :: HasEvent(m, a, e)
    ensures forall c | c in m.live :: exists a :: HasCallback(m, a, c)
  {
    forall e | e in m.events
      ensures exists a :: HasEvent(m, a, e)
    {
      var a :| HasEvent(l, a, e);
      assert HasEvent(m, to(a), e);
    }
    forall c | c in m.live
      ensures exists a :: HasCallback(m, a, c)
    {
      var a :| HasCallback(l, a, c);
      assert HasCallback(m, to(a), c);
    }
  }

  function Other(at: nat, from: nat, x: nat): nat {
    if x == at then from else if x == from then at else x
  }

  lemma SwappedHas(l: Loop, at: nat, from: nat)
    requires at in l.timers && from in l.timers
    ensures forall a, e :: HasEvent(Swapped(l, at, from), a, e) <==> HasEvent(l, Other(at, from, a), e)
    ensures forall a, c :: HasCallback(Swapped(l, at, from), a, c) <==> HasCallback(l, Other(at, from, a), c)
  {
  }

  lemma SwappedKeeps(l: Loop, at: nat, from: nat)
    requires WF(l) && at in l.timers && from in l.timers
    ensures WF(Swapped(l, at, from))
  {
    hide HasEvent, HasCallback;
    var m := Swapped(l, at, from);
    SwappedHas(l, at, from);
    assert forall e | e in m.events :: exists a :: HasEvent(m, a, e) by {
      forall e | e in m.events
        ensures exists a :: HasEvent(m, a, e)
      {
        var a :| HasEvent(l, a, e);
        assert HasEvent(m, Other(at, from, a), e);
      }
    }
    assert forall c | c in m.live :: exists a :: HasCallback(m, a, c) by {
      forall c | c in m.live
        ensures exists a :: HasCallback(m, a, c)
      {
        var a :| HasCallback(l, a, c);
        assert HasCallback(m, Other(at, from, a), c);
      }
    }
  }

  lemma ArmedHas(l: Loop, at: nat, what: nat)
    requires at !in l.timers
    ensures var m := Step(l, Arm(at, what)).value;
            && (forall a, c :: HasCallback(m, a, c) <==> HasCallback(l, a, c) || (a == at && c == l.next))
            && (forall a, e :: HasEvent(m, a, e) <==> HasEvent(l, a, e) || (a == at && e == l.next + 1))
            && !(exists c :: HasCallback(l, at, c)) && !(exists e :: HasEvent(l, at, e))
  {
  }

  lemma ArmKeeps(l: Loop, at: nat, what: nat)
    requires WF(l) && at !in l.timers
    ensures WF(Step(l, Arm(at, what)).value)
  {
    hide HasEvent, HasCallback;
    var m := Step(l, Arm(at, what)).value;
    ArmedHas(l, at, what);
    assert HasEvent(m, at, l.next + 1) && HasCallback(m, at, l.next);
    forall e | e in m.events
      ensures exists a :: HasEvent(m, a, e)
    {
      if e != l.next + 1 {
        var a :| HasEvent(l, a, e);
        assert HasEvent(m, a, e);
      }
    }
    forall c | c in m.live
      ensures exists a :: HasCallback(m, a, c)
    {
      if c != l.next {
        var a :| HasCallback(l, a, c);
        assert HasCallback(m, a, c);
      }
    }
  }

  lemma ClearedKeeps(l: Loop, at: nat)
    requires WF(l) && at in l.timers
    ensures Cleared(l, at).Some? && WF(Cleared(l, at).value)
  {
    var t := l.timers[at];
    if t.event.Some? {
      assert HasEvent(l, at, t.event.value);
      var m := Cleared(l, at).value;
      assert forall a, c :: HasCallback(m, a, c) <==> HasCallback(l, a, c);
      assert forall a, e :: HasEvent(m, a, e) <==> HasEvent(l, a, e) && a != at;
      Found(l, m, a => a);
    }
  }

  lemma GoneKeeps(l: Loop, at: nat)
    requires WF(l) && at in l.timers && l.timers[at].event.None?
    ensures Gone(l, at).Some? && WF(Gone(l, at).value)
  {
    var t := l.timers[at];
    assert t.callback.Some? ==> HasCallback(l, at, t.callback.value);
    var m := Gone(l, at).value;
    assert forall a, c :: HasCallback(m, a, c) <==> HasCallback(l, a, c) && a != at;
    assert forall a, e :: HasEvent(m, a, e) <==> HasEvent(l, a, e);
    Found(l, m, a => a);
  }

  /** No operation of a proper run touches an event or a callback that is gone, and ownership stays
      exact. */
  lemma StepKeeps(l: Loop, op: Op)
    requires WF(l) && Proper(l, op)
    ensures Step(l, op).Some? && WF(Step(l, op).value)
  {
    match op
    case Empty(at) => EmptiedKeeps(l, at);
    case Arm(at, what) => ArmKeeps(l, at, what);
    case Move(at, from) =>
      EmptiedKeeps(l, at);
      SwappedKeeps(Emptied(l, at), at, from);
    case Assign(at, from) => SwappedKeeps(l, at, from);
    case Clear(at) => ClearedKeeps(l, at);
    case Destroy(at) =>
      ClearedKeeps(l, at);
      GoneKeeps(Cleared(l, at).value, at);
    case Fire(event) =>
      var a :| HasEvent(l, a, event);
      assert HasCallback(l, a, l.events[event]);
  }

  lemma NextIsNew(l: Loop)
    requires WF(l)
    ensures l.next !in l.live && l.next + 1 !in l.events
  {
  }

  const NO_TIMERS := Loop(map[], map[], map[], 0)

  /** The state after a run, as long as every operation names the right objects and none touches
      what is gone. */
  function Run(ops: seq<Op>): Option<Loop> {
    if ops == [] then Some(NO_TIMERS)
    else
      var before := Run(ops[..|ops| - 1]);
      if before.None? || !Proper(before.value, ops[|ops| - 1]) then None
      else Step(before.value, ops[|ops| - 1])
  }

  ghost predicate ProperRun(ops: seq<Op>) {
    ops == [] || (ProperRun(ops[..|ops| - 1]) &&
                  (Run(ops[..|ops| - 1]).Some? ==> Proper(Run(ops[..|ops| - 1]).value, ops[|ops| - 1])))
  }

  /** Any run of constructions, moves, assignments, clears, destructions and ticks. */
  lemma {:induction false} RunKeeps(ops: seq<Op>)
    requires ProperRun(ops)
    ensures Run(ops).Some? && WF(Run(ops).value)
  {
    if ops != [] {
      RunKeeps(ops[..|ops| - 1]);
      StepKeeps(Run(ops[..|ops| - 1]).value, ops[|ops| - 1]);
    }
  }

  /** When no timer is left, nothing is registered and nothing leaks. */
  lemma NothingLeft(l: Loop)
    requires WF(l) && l.timers == map[]
    ensures l.events == map[] && l.live == map[]
  {
    assert forall a, e :: !HasEvent(l, a, e);
    assert forall a, c :: !HasCallback(l, a, c);
    assert l.events.Keys == {} && l.live.Keys == {};
  }

  /** Clear never loses anything but the event of the timer it is called on. */
  lemma ClearedExactly(l: Loop, at: nat, e: nat)
    requires WF(l) && at in l.timers
    ensures Cleared(l, at).Some?
    ensures e in Cleared(l, at).value.events <==> e in l.events && !HasEvent(l, at, e)
    ensures e in Cleared(l, at).value.events ==> Cleared(l, at).value.events[e] == l.events[e]
  {
    ClearedKeeps(l, at);
  }

  /** The objects themselves: each method is one RepeatedTimer member, called on the timer at an
      address. */
  class EventLoop {
    var events: map<nat, nat>
    var live: map<nat, nat>
    var timers: map<nat, Timer>
    var next: nat

    function Now(): Loop
      reads this
    {
      Loop(events, live, timers, next)
    }

    ghost predicate Valid()
      reads this
    {
      WF(Now())
    }

    constructor ()
      ensures Now() == NO_TIMERS && Valid()
    {
      events, live, timers, next := map[], map[], map[], 0;
    }

    method Empty(at: nat)
      requires Valid() && at !in timers
      modifies this
      ensures Valid() && Some(Now()) == Step(old(Now()), Op.Empty(at))
      ensures events == old(events) && live == old(live) && timers == old(timers)[at := Timer(None, None)]
    {
      StepKeeps(Now(), Op.Empty(at));
      timers := timers[at := UNARMED];
    }

    /** Makes the callback object, then CreateTimer registers an event for it. */
    method Arm(at: nat, what: nat)
      requires Valid() && at !in timers
      modifies this
      ensures Valid() && Some(Now()) == Step(old(Now()), Op.Arm(at, what))
      ensures exists e, c ::
                && e !in old(events) && c !in old(live)
                && events == old(events)[e := c] && live == old(live)[c := what]
                && timers == old(timers)[at := Timer(Some(e), Some(c))]
    {
      hide WF;
      StepKeeps(Now(), Op.Arm(at, what));
      NextIsNew(Now());
      var callback := next;
      live := live[callback := what];
      var timer := next + 1;
      events := events[timer := callback];
      timers := timers[at := Timer(Some(timer), Some(callback))];
      next := next + 2;
    }

    method Move(at: nat, from: nat)
      requires Valid() && at !in timers && from in timers
      modifies this
      ensures Valid() && Some(Now()) == Step(old(Now()), Op.Move(at, from))
      ensures events == old(events) && live == old(live)
      ensures timers == old(timers)[at := old(timers[from])][from := Timer(None, None)]
    {
      StepKeeps(Now(), Op.Move(at, from));
      timers := timers[at := UNARMED];
      Swap(at, from);
    }

    method Swap(at: nat, from: nat)
      requires at in timers && from in timers
      modifies this`timers
      ensures Now() == Swapped(old(Now()), at, from)
    {
      var t := timers[at];
      timers := timers[at := timers[from]];
      timers := timers[from := t];
    }

    method Assign(at: nat, from: nat)
      requires Valid() && at in timers && from in timers
      modifies this
      ensures Valid() && Some(Now()) == Step(old(Now()), Op.Assign(at, from))
      ensures events == old(events) && live == old(live)
      ensures timers == old(timers)[at := old(timers[from])][from := old(timers[at])]
    {
      StepKeeps(Now(), Op.Assign(at, from));
      Swap(at, from);
    }

    method Clear(at: nat)
      requires Valid() && at in timers
      modifies this
      ensures Valid() && Some(Now()) == Step(old(Now()), Op.Clear(at))
      ensures live == old(live) && timers == old(timers)[at := Timer(None, old(timers[at]).callback)]
      ensures events == if old(timers[at]).event.None? then old(events)
                        else old(events) - {old(timers[at]).event.value}
    {
      StepKeeps(Now(), Op.Clear(at));
      var t := timers[at];
      if t.event.Some? {
        events := events - {t.event.value};
      }
      timers := timers[at := t.(event := None)];
      assert t.event.None? ==> timers == old(timers);
    }

    method Destroy(at: nat)
      requires Valid() && at in timers
      modifies this
      ensures Valid() && Some(Now()) == Step(old(Now()), Op.Destroy(at))
      ensures timers == old(timers) - {at}
      ensures events == if old(timers[at]).event.None? then old(events)
                        else old(events) - {old(timers[at]).event.value}
      ensures live == if old(timers[at]).callback.None? then old(live)
                      else old(live) - {old(timers[at]).callback.value}
    {
      StepKeeps(Now(), Op.Destroy(at));
      Clear(at);
      var t := timers[at];
      if t.callback.Some? {
        live := live - {t.callback.value};
      }
      timers := timers - {at};
    }

    /** TimerCallback: runs the callback the event was registered with. */
    method Fire(e: nat) returns (what: nat)
      requires Valid() && e in events
      ensures events[e] in live && what == live[events[e]]
      ensures exists a :: HasEvent(Now(), a, e) && HasCallback(Now(), a, events[e])
    {
      StepKeeps(Now(), Op.Fire(e));
      what := live[events[e]];
    }
  }
}
