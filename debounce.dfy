/**
 * `debounce(func, delay)`: a wrapper that keeps one pending call. Each call
 * cancels the pending one (`clearTimeout`) and schedules itself `delay`
 * time units later (`setTimeout`); the timer firing runs the wrapped
 * function with the last call's value. Time is an integer clock and the
 * passing of time is a `Tick` event.
 */
module Debounce {
  import opened Wrappers

  /** The scheduled call: the value it carries and the time its timer fires. */
  datatype Pending<V> = Pending(value: V, due: int)

  /** A call of the debounced function at some time, or the clock reaching some time. */
  datatype Event<V> = Call(value: V, time: int) | Tick(time: int)

  /** One event: the new pending slot and the value passed to the wrapped function, if its timer fired. */
  function Step<V>(delay: nat, slot: Option<Pending<V>>, e: Event<V>): (r: (Option<Pending<V>>, Option<V>))
    ensures e.Call? ==> r == (Some(Pending(e.value, e.time + delay)), None)
    ensures e.Tick? ==> (r.1.Some? <==> slot.Some? && slot.value.due <= e.time)
    ensures r.1.Some? ==> slot.Some? && r.1.value == slot.value.value && r.0 == None
    ensures e.Tick? && r.1.None? ==> r.0 == slot
  {
    match e
    case Call(v, t) => (Some(Pending(v, t + delay)), None)
    case Tick(t) =>
      if slot.Some? && slot.value.due <= t then (None, Some(slot.value.value)) else (slot, None)
  }

  /** A whole event sequence: the final slot and the values passed to the wrapped function, in order. */
  function Run<V>(delay: nat, slot: Option<Pending<V>>, events: seq<Event<V>>): (r: (Option<Pending<V>>, seq<V>))
    ensures |r.1| <= |events|
    ensures AllCalls(events) && events != [] ==> r.1 == []
    decreases |events|
  {
    if events == [] then (slot, [])
    else
      var (next, fired) := Step(delay, slot, events[0]);
      var (last, later) := Run(delay, next, events[1..]);
      (last, (if fired.Some? then [fired.value] else []) + later)
  }

  /** The values of the calls in an event sequence, in order. */
  function CalledValues<V>(events: seq<Event<V>>): seq<V> {
    if events == [] then []
    else if events[0].Call? then [events[0].value] + CalledValues(events[1..])
    else CalledValues(events[1..])
  }

  predicate AllCalls<V>(events: seq<Event<V>>) {
    forall i :: 0 <= i < |events| ==> events[i].Call?
  }

  /** Running two event sequences one after the other. */
  lemma {:induction false} RunAppend<V>(delay: nat, slot: Option<Pending<V>>, a: seq<Event<V>>, b: seq<Event<V>>)
    ensures Run(delay, slot, a + b).0 == Run(delay, Run(delay, slot, a).0, b).0
    ensures Run(delay, slot, a + b).1 == Run(delay, slot, a).1 + Run(delay, Run(delay, slot, a).0, b).1
    decreases |a|
  {
    if a == [] {
      assert a + b == b;
    } else {
      assert (a + b)[0] == a[0] && (a + b)[1..] == a[1..] + b;
      RunAppend(delay, Step(delay, slot, a[0]).0, a[1..], b);
    }
  }

  /** A burst of calls fires nothing and leaves only the last call pending. */
  lemma {:induction false} BurstLeavesLastPending<V>(delay: nat, slot: Option<Pending<V>>, calls: seq<Event<V>>)
    requires calls != [] && AllCalls(calls)
    ensures Run(delay, slot, calls).1 == []
    ensures Run(delay, slot, calls).0 == Some(Pending(calls[|calls| - 1].value, calls[|calls| - 1].time + delay))
    decreases |calls|
  {
    assert calls[0].Call?;
    if |calls| > 1 {
      BurstLeavesLastPending(delay, Step(delay, slot, calls[0]).0, calls[1..]);
    }
  }

  /**
   * Rapid calls collapse into one: after a burst of calls, the clock reaching
   * the last call's time plus the delay runs the wrapped function once, with
   * the last value; reaching any earlier time runs it not at all.
   */
  lemma BurstFiresLastOnce<V>(delay: nat, slot: Option<Pending<V>>, calls: seq<Event<V>>, now: int)
    requires calls != [] && AllCalls(calls)
    ensures var last := calls[|calls| - 1];
      Run(delay, slot, calls + [Tick(now)]).1 ==
        if last.time + delay <= now then [last.value] else []
  {
    BurstLeavesLastPending(delay, slot, calls);
    RunAppend(delay, slot, calls, [Tick(now)]);
  }

  /** Every value passed to the wrapped function is the pending one's or that of some call. */
  lemma {:induction false} FiredWereCalled<V>(delay: nat, slot: Option<Pending<V>>, events: seq<Event<V>>)
    ensures forall v :: v in Run(delay, slot, events).1 ==>
      (slot.Some? && v == slot.value.value) || v in CalledValues(events)
    decreases |events|
  {
    if events != [] {
      var next := Step(delay, slot, events[0]).0;
      FiredWereCalled(delay, next, events[1..]);
    }
  }

  /** The wrapped function runs at most once per call (plus once for a call already pending). */
  lemma {:induction false} FiresAtMostOncePerCall<V>(delay: nat, slot: Option<Pending<V>>, events: seq<Event<V>>)
    ensures |Run(delay, slot, events).1| <= |CalledValues(events)| + (if slot.Some? then 1 else 0)
    decreases |events|
  {
    if events != [] {
      var next := Step(delay, slot, events[0]).0;
      FiresAtMostOncePerCall(delay, next, events[1..]);
    }
  }

  /** Every event is a tick. */
  predicate AllTicks<V>(events: seq<Event<V>>) {
    forall i :: 0 <= i < |events| ==> events[i].Tick?
  }

  /** Position `i` holds a call and only ticks come after it. */
  predicate IsLastCallAt<V>(events: seq<Event<V>>, i: int) {
    0 <= i < |events| && events[i].Call? && AllTicks(events[i + 1..])
  }

  /** A call followed only by ticks stays the last call when one more tick follows. */
  lemma LastCallAtExtends<V>(init: seq<Event<V>>, e: Event<V>, i: int)
    requires IsLastCallAt(init, i) && e.Tick?
    ensures IsLastCallAt(init + [e], i) && (init + [e])[i] == init[i]
  {
    assert (init + [e])[i + 1..] == init[i + 1..] + [e];
  }

  /** The last call in an event sequence, if there is one. */
  function LastCall<V>(events: seq<Event<V>>): (r: Option<Event<V>>)
    ensures r.Some? ==> r.value.Call? && r.value in events
    ensures r.Some? ==> exists i :: IsLastCallAt(events, i) && events[i] == r.value
    ensures r.None? ==> AllTicks(events)
    decreases |events|
  {
    if events == [] then None
    else
      var init, e := events[..|events| - 1], events[|events| - 1];
      assert events == init + [e];
      if e.Call? then
        assert IsLastCallAt(events, |events| - 1);
        Some(e)
      else
        var r := LastCall(init);
        assert r.Some? ==> exists i :: IsLastCallAt(events, i) && events[i] == r.value by {
          if r.Some? {
            var i :| IsLastCallAt(init, i) && init[i] == r.value;
            LastCallAtExtends(init, e, i);
          }
        }
        r
  }

  /**
   * Starting idle, whatever is pending after an event sequence is the last
   * call of that sequence, due `delay` after it.
   */
  lemma {:induction false} PendingIsLastCall<V>(delay: nat, events: seq<Event<V>>)
    ensures var slot := Run(delay, None, events).0;
      slot.Some? ==>
        && LastCall(events).Some?
        && slot.value == Pending(LastCall(events).value.value, LastCall(events).value.time + delay)
    decreases |events|
  {
    if events != [] {
      var init := events[..|events| - 1];
      var e := events[|events| - 1];
      assert events == init + [e];
      RunAppend(delay, None, init, [e]);
      PendingIsLastCall(delay, init);
    }
  }

  /**
   * Only the last value fires, and only once its window has passed: from
   * idle, a tick at `now` that fires a value fires the value of the last call
   * so far, and that call was made at least `delay` before `now`.
   */
  lemma FiresLastCallWhenDue<V>(delay: nat, events: seq<Event<V>>, now: int)
    ensures var fired := Step(delay, Run(delay, None, events).0, Tick(now)).1;
      fired.Some? ==>
        && LastCall(events).Some?
        && fired.value == LastCall(events).value.value
        && LastCall(events).value.time + delay <= now
  {
    PendingIsLastCall(delay, events);
  }

  /** Ticks that all come before the pending call's due time fire nothing and leave it pending. */
  lemma {:induction false} QuietTicksKeepPending<V>(delay: nat, slot: Option<Pending<V>>, ticks: seq<Event<V>>)
    requires slot.Some? && AllTicks(ticks)
    requires forall i :: 0 <= i < |ticks| ==> ticks[i].time < slot.value.due
    ensures Run(delay, slot, ticks) == (slot, [])
    decreases |ticks|
  {
    if ticks != [] {
      assert ticks[0].Tick? && ticks[0].time < slot.value.due;
      QuietTicksKeepPending(delay, slot, ticks[1..]);
    }
  }

  /**
   * Whatever came before, a call followed only by ticks earlier than its due
   * time is still pending, and the first tick at or past its due time fires
   * its value, once.
   */
  lemma CallThenQuietTicksFires<V>(delay: nat, events: seq<Event<V>>, c: Event<V>, ticks: seq<Event<V>>, now: int)
    requires c.Call? && AllTicks(ticks)
    requires forall i :: 0 <= i < |ticks| ==> ticks[i].time < c.time + delay
    requires c.time + delay <= now
    ensures Run(delay, None, events + [c] + ticks + [Tick(now)]).1 == Run(delay, None, events).1 + [c.value]
  {
    var before := Run(delay, None, events);
    var pending := Some(Pending(c.value, c.time + delay));
    assert Run(delay, before.0, [c]) == (pending, []);
    RunAppend(delay, None, events, [c]);
    QuietTicksKeepPending(delay, pending, ticks);
    RunAppend(delay, None, events + [c], ticks);
    RunAppend(delay, None, events + [c] + ticks, [Tick(now)]);
  }

  /** The example of the quiet window: a call at 0, a tick at 100 that is too early, a tick at 300 that fires. */
  lemma QuietWindowExample<V>(v: V)
    ensures Run(300, None, [Call(v, 0), Tick(100), Tick(300)]).1 == [v]
  {
    var ticks: seq<Event<V>> := [Tick(100)];
    CallThenQuietTicksFires(300, [], Call(v, 0), ticks, 300);
    assert [] + [Call(v, 0)] + ticks + [Tick(300)] == [Call(v, 0), Tick(100), Tick(300)];
  }

  /**
   * Three keystrokes 100 units apart under a 300-unit window, with the clock
   * ticking every 100 units: one update, carrying the last keystroke, at 500.
   */
  lemma KeystrokeExample()
    ensures Run(300, None, [Call("r", 0), Tick(100), Call("ri", 100), Tick(200), Call("ric", 200),
                            Tick(300), Tick(400), Tick(500), Tick(600)]).1 == ["ric"]
  {
  }

  /** The closure returned by `debounce`, holding the handle of its pending timer. */
  class Debouncer<V> {
    const delay: nat
    var slot: Option<Pending<V>>

    constructor (delay: nat)
      ensures this.delay == delay && slot == None
    {
      this.delay := delay;
      slot := None;
    }

    /** A call: the pending call, if any, is cancelled and this one scheduled. */
    method Call(value: V, now: int)
      modifies this
      ensures slot == Step(delay, old(slot), Event.Call(value, now)).0
      ensures slot == Some(Pending(value, now + delay))
    {
      slot := Some(Pending(value, now + delay));
    }

    /** The clock reaches `now`: a pending call that is due fires and the slot empties. */
    method Tick(now: int) returns (fired: Option<V>)
      modifies this
      ensures (slot, fired) == Step(delay, old(slot), Event.Tick(now))
    {
      if slot.Some? && slot.value.due <= now {
        fired := Some(slot.value.value);
        slot := None;
      } else {
        fired := None;
      }
    }
  }
}
