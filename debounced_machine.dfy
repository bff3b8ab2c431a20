/**
  The per-button classification state machine of the linked-list variant
  (components/button/button_driver.c), as pure transitions over the mutable
  fields of one button, plus a trace semantics that runs a button through a
  sequence of raw edges and timer expiries.

  The two one-shot timers are modelled by whether they are armed. Starting an
  armed timer restarts it, so it stays armed; an expired timer is no longer
  armed.
*/
module DebouncedMachine {
  import opened ButtonTypes

  /** The fields of button_t that the handlers change. */
  datatype ButtonState = ButtonState(
    clickCount: Uint8,
    lastPressTick: Tick,
    lastEventTick: Tick,
    clickTimerArmed: bool,
    longTimerArmed: bool)

  /** A freshly registered button: zeroed counters, timers created but not started. */
  const Registered: ButtonState := ButtonState(0, 0, 0, false, false)

  /** The debounce gate: an edge at `now` is acted on unless it is too close to the last accepted one. */
  predicate Accepts(s: ButtonState, now: Tick)
  {
    Elapsed(now, s.lastEventTick) >= DEBOUNCE_TICKS
  }

  /**
    One dequeued raw event for this button at tick `now` (the body of the
    task loop after the lookup). `evt` is None for an event code that is
    neither EVENT_PRESS nor EVENT_RELEASE.
  */
  function OnRawEvent(s: ButtonState, evt: Option<RawEvent>, now: Tick): (r: ButtonState)
    ensures !Accepts(s, now) ==> r == s
    ensures Accepts(s, now) ==> r.lastEventTick == now
    ensures Accepts(s, now) && evt == Some(Press) ==>
      && r.clickCount == Inc8(s.clickCount)
      && r.lastPressTick == now
      && r.longTimerArmed
      && r.clickTimerArmed == s.clickTimerArmed
    ensures Accepts(s, now) && evt == Some(Release) ==>
      && r.clickCount == s.clickCount
      && r.lastPressTick == s.lastPressTick
      && !r.longTimerArmed
      && r.clickTimerArmed
    ensures Accepts(s, now) && evt == None ==> r == s.(lastEventTick := now)
  {
    if !Accepts(s, now) then s
    else
      var t := s.(lastEventTick := now);
      match evt
      case Some(Press) => t.(clickCount := Inc8(t.clickCount), lastPressTick := now, longTimerArmed := true)
      case Some(Release) => t.(longTimerArmed := false, clickTimerArmed := true)
      case None => t
  }

  /** What the click timer's expiry handler reports. */
  datatype ClickReport = Emitted(event: ButtonEvent) | Warned(warning: Warning) | Quiet

  /**
    The click timer's expiry (click_timer_cb): count 1 is a single click,
    count 2 a double click, any other count reports nothing; a missing
    callback turns a report into a warning; the count always returns to 0.
  */
  function OnClickTimer(s: ButtonState, cb: Callback): (r: (ButtonState, ClickReport))
    ensures r.0 == s.(clickCount := 0, clickTimerArmed := false)
    ensures r.1 == Emitted(SingleClick) <==> s.clickCount == 1 && cb.Handler?
    ensures r.1 == Emitted(DoubleClick) <==> s.clickCount == 2 && cb.Handler?
    ensures r.1 == Warned(ClickCallbackNotSet) <==> s.clickCount == 1 && cb == NoCallback
    ensures r.1 == Warned(DoubleCallbackNotSet) <==> s.clickCount == 2 && cb == NoCallback
    ensures r.1 == Quiet <==> s.clickCount != 1 && s.clickCount != 2
    ensures r.1 != Emitted(LongPress)
  {
    var report :=
      if s.clickCount == 1 then
        (if cb.Handler? then Emitted(SingleClick) else Warned(ClickCallbackNotSet))
      else if s.clickCount == 2 then
        (if cb.Handler? then Emitted(DoubleClick) else Warned(DoubleCallbackNotSet))
      else Quiet;
    (s.(clickCount := 0, clickTimerArmed := false), report)
  }

  /**
    The long-press timer's expiry (long_press_timer_cb), whose report is
    always BUTTON_LONG_PRESS: the count returns to 0 and the pending click
    classification is cancelled.
  */
  function OnLongPressTimer(s: ButtonState): (r: ButtonState)
    ensures r.clickCount == 0 && !r.clickTimerArmed && !r.longTimerArmed
    ensures r.lastPressTick == s.lastPressTick && r.lastEventTick == s.lastEventTick
  {
    s.(clickCount := 0, clickTimerArmed := false, longTimerArmed := false)
  }

  /** What can happen to one button: a dequeued edge, or the expiry of one of its timers. */
  datatype Input = Edge(evt: RawEvent, now: Tick) | ClickTimerFires | LongTimerFires

  predicate IsPress(i: Input)
  {
    i.Edge? && i.evt == Press
  }

  predicate IsExpiry(i: Input)
  {
    !i.Edge?
  }

  /**
    One input and the events it dispatches to the callback. A timer fires
    only while it is armed; the timer service runs nothing otherwise.
  */
  function Step(s: ButtonState, cb: Callback, i: Input): (ButtonState, seq<ButtonEvent>)
  {
    match i
    case Edge(e, now) => (OnRawEvent(s, Some(e), now), [])
    case ClickTimerFires =>
      if !s.clickTimerArmed then (s, [])
      else
        var r := OnClickTimer(s, cb);
        (r.0, if r.1.Emitted? then [r.1.event] else [])
    case LongTimerFires =>
      if !s.longTimerArmed then (s, []) else (OnLongPressTimer(s), [LongPress])
  }

  /**
    The inputs can be delivered to a button with callback `cb`. The
    long-press handler calls the callback without checking it, so a button
    registered without one must not see its long-press timer fire; every
    other input is safe without a callback.
  */
  predicate Runnable(cb: Callback, ins: seq<Input>)
  {
    cb.Handler? || forall k :: 0 <= k < |ins| ==> ins[k] != LongTimerFires
  }

  /** A run of inputs in order: the final state and every event dispatched. */
  function Run(s: ButtonState, cb: Callback, ins: seq<Input>): (ButtonState, seq<ButtonEvent>)
    requires Runnable(cb, ins)
    decreases |ins|
  {
    if ins == [] then (s, [])
    else
      assert forall k :: 0 <= k < |ins| - 1 ==> ins[1..][k] == ins[k + 1];
      var first := Step(s, cb, ins[0]);
      var rest := Run(first.0, cb, ins[1..]);
      (rest.0, first.1 + rest.1)
  }

  /** The number of timer expiries among the inputs. */
  function Expiries(ins: seq<Input>): nat
    decreases |ins|
  {
    if ins == [] then 0 else (if IsExpiry(ins[0]) then 1 else 0) + Expiries(ins[1..])
  }

  /** Running `[i] + rest` is one step, then the rest. */
  lemma RunCons(s: ButtonState, cb: Callback, i: Input, rest: seq<Input>)
    requires Runnable(cb, [i]) && Runnable(cb, rest)
    ensures var first := Step(s, cb, i); var r := Run(first.0, cb, rest);
      Run(s, cb, [i] + rest) == (r.0, first.1 + r.1)
  {
    assert ([i] + rest)[0] == i && ([i] + rest)[1..] == rest;
  }

  /** Running a single input is taking that one step. */
  lemma RunOne(s: ButtonState, cb: Callback, i: Input)
    requires Runnable(cb, [i])
    ensures Run(s, cb, [i]) == Step(s, cb, i)
  {
    RunCons(s, cb, i, []);
    assert Step(s, cb, i).1 + [] == Step(s, cb, i).1;
  }

  /** Running `a + b` is running `a`, then `b` from where `a` left off. */
  lemma {:induction false} RunAppend(s: ButtonState, cb: Callback, a: seq<Input>, b: seq<Input>)
    requires Runnable(cb, a) && Runnable(cb, b)
    ensures var ra := Run(s, cb, a); var rb := Run(ra.0, cb, b);
      Run(s, cb, a + b) == (rb.0, ra.1 + rb.1)
    decreases |a|
  {
    if a == [] {
      assert a + b == b;
      assert [] + Run(s, cb, b).1 == Run(s, cb, b).1;
    } else {
      assert a + b == [a[0]] + (a[1..] + b);
      assert a == [a[0]] + a[1..];
      var first := Step(s, cb, a[0]);
      RunCons(s, cb, a[0], a[1..] + b);
      RunCons(s, cb, a[0], a[1..]);
      RunAppend(first.0, cb, a[1..], b);
      assert first.1 + (Run(first.0, cb, a[1..]).1 + Run(Run(first.0, cb, a[1..]).0, cb, b).1)
          == (first.1 + Run(first.0, cb, a[1..]).1) + Run(Run(first.0, cb, a[1..]).0, cb, b).1;
    }
  }

  /** Each timer expiry dispatches at most one event and an edge dispatches none. */
  lemma {:induction false} DispatchesBoundedByExpiries(s: ButtonState, cb: Callback, ins: seq<Input>)
    requires Runnable(cb, ins)
    ensures |Run(s, cb, ins).1| <= Expiries(ins)
    decreases |ins|
  {
    if ins != [] {
      DispatchesBoundedByExpiries(Step(s, cb, ins[0]).0, cb, ins[1..]);
    }
  }

  /**
    Contact bounce: edges that all fall inside the debounce window of the
    last accepted edge are discarded and leave the button exactly as it was.
  */
  lemma {:induction false} BounceIsDiscarded(s: ButtonState, cb: Callback, ins: seq<Input>)
    requires forall k :: 0 <= k < |ins| ==> ins[k].Edge? && !Accepts(s, ins[k].now)
    ensures Run(s, cb, ins) == (s, [])
    decreases |ins|
  {
    if ins != [] {
      assert ins == [ins[0]] + ins[1..];
      RunCons(s, cb, ins[0], ins[1..]);
      BounceIsDiscarded(s, cb, ins[1..]);
      var none: seq<ButtonEvent> := [];
      assert none + none == none;
    }
  }

  /**
    With no pending click and the long-press timer stopped, a button that is
    never pressed dispatches nothing and keeps its count at 0, however its
    releases, bounces and timer expiries interleave.
  */
  lemma {:induction false} NoPressNoDispatch(s: ButtonState, cb: Callback, ins: seq<Input>)
    requires Runnable(cb, ins)
    requires s.clickCount == 0 && !s.longTimerArmed
    requires forall k :: 0 <= k < |ins| ==> !IsPress(ins[k])
    ensures Run(s, cb, ins).1 == []
    ensures Run(s, cb, ins).0.clickCount == 0 && !Run(s, cb, ins).0.longTimerArmed
    decreases |ins|
  {
    if ins != [] {
      assert !IsPress(ins[0]);
      var t := Step(s, cb, ins[0]).0;
      assert Step(s, cb, ins[0]).1 == [] && t.clickCount == 0 && !t.longTimerArmed;
      NoPressNoDispatch(t, cb, ins[1..]);
    }
  }

  /**
    A long press preempts click classification: once the long-press timer
    fires, the interaction dispatches exactly one BUTTON_LONG_PRESS and no
    click, even when the button is then released and the click timer fires.
  */
  lemma LongPressPreemptsClicks(s: ButtonState, cb: Callback, rest: seq<Input>)
    requires cb.Handler?
    requires s.longTimerArmed
    requires forall k :: 0 <= k < |rest| ==> !IsPress(rest[k])
    ensures Run(s, cb, [LongTimerFires] + rest).1 == [LongPress]
  {
    var t := OnLongPressTimer(s);
    RunAppend(s, cb, [LongTimerFires], rest);
    NoPressNoDispatch(t, cb, rest);
  }

  /** An idle button: nothing counted, no timer running. */
  predicate Idle(s: ButtonState)
  {
    s.clickCount == 0 && !s.clickTimerArmed && !s.longTimerArmed
  }

  /** A press and a release, both accepted by the debounce gate. */
  function Click(tp: Tick, tr: Tick): seq<Input>
  {
    [Edge(Press, tp), Edge(Release, tr)]
  }

  /**
    An accepted press and release count one click and leave the click timer
    running and the long-press timer stopped, dispatching nothing.
  */
  lemma AcceptedClick(s: ButtonState, cb: Callback, tp: Tick, tr: Tick)
    requires Accepts(s, tp) && Elapsed(tr, tp) >= DEBOUNCE_TICKS
    ensures Run(s, cb, Click(tp, tr)) == (s.(clickCount := Inc8(s.clickCount), lastPressTick := tp,
      lastEventTick := tr, clickTimerArmed := true, longTimerArmed := false), [])
  {
    var s1 := OnRawEvent(s, Some(Press), tp);
    RunCons(s, cb, Edge(Press, tp), [Edge(Release, tr)]);
    RunOne(s1, cb, Edge(Release, tr));
    assert [Edge(Press, tp)] + [Edge(Release, tr)] == Click(tp, tr);
    var none: seq<ButtonEvent> := [];
    assert none + none == none;
  }

  /**
    Press, release, and the click timer expires: one single click, or only
    the warning (nothing dispatched) for a button without a callback.
  */
  lemma SingleClickScenario(s: ButtonState, cb: Callback, t0: Tick, t1: Tick)
    requires Idle(s)
    requires Accepts(s, t0) && Elapsed(t1, t0) >= DEBOUNCE_TICKS
    ensures Run(s, cb, Click(t0, t1) + [ClickTimerFires]) ==
      (s.(lastPressTick := t0, lastEventTick := t1), if cb.Handler? then [SingleClick] else [])
  {
    AcceptedClick(s, cb, t0, t1);
    var s1 := Run(s, cb, Click(t0, t1)).0;
    RunAppend(s, cb, Click(t0, t1), [ClickTimerFires]);
    RunOne(s1, cb, ClickTimerFires);
    var none: seq<ButtonEvent> := [];
    assert none + [SingleClick] == [SingleClick] && none + none == none;
  }

  /**
    Two clicks before the click timer expires: one double click and no single
    click, or nothing dispatched for a button without a callback.
  */
  lemma DoubleClickScenario(s: ButtonState, cb: Callback, t0: Tick, t1: Tick, t2: Tick, t3: Tick)
    requires Idle(s)
    requires Accepts(s, t0) && Elapsed(t1, t0) >= DEBOUNCE_TICKS
    requires Elapsed(t2, t1) >= DEBOUNCE_TICKS && Elapsed(t3, t2) >= DEBOUNCE_TICKS
    ensures Run(s, cb, Click(t0, t1) + Click(t2, t3) + [ClickTimerFires]).1 == if cb.Handler? then [DoubleClick] else []
  {
    AcceptedClick(s, cb, t0, t1);
    var s1 := Run(s, cb, Click(t0, t1)).0;
    AcceptedClick(s1, cb, t2, t3);
    var s2 := Run(s1, cb, Click(t2, t3)).0;
    assert s2.clickCount == 2 && s2.clickTimerArmed;
    assert Click(t0, t1) + Click(t2, t3) + [ClickTimerFires] == Click(t0, t1) + (Click(t2, t3) + [ClickTimerFires]);
    RunAppend(s, cb, Click(t0, t1), Click(t2, t3) + [ClickTimerFires]);
    RunAppend(s1, cb, Click(t2, t3), [ClickTimerFires]);
    RunOne(s2, cb, ClickTimerFires);
    var none: seq<ButtonEvent> := [];
    assert none + (none + [DoubleClick]) == [DoubleClick] && none + (none + none) == none;
  }

  /**
    A third click before the click timer expires reports nothing: the
    handler recognises only counts 1 and 2.
  */
  lemma TripleClickScenario(s: ButtonState, cb: Callback, t0: Tick, t1: Tick, t2: Tick, t3: Tick, t4: Tick, t5: Tick)
    requires Idle(s)
    requires Accepts(s, t0) && Elapsed(t1, t0) >= DEBOUNCE_TICKS
    requires Elapsed(t2, t1) >= DEBOUNCE_TICKS && Elapsed(t3, t2) >= DEBOUNCE_TICKS
    requires Elapsed(t4, t3) >= DEBOUNCE_TICKS && Elapsed(t5, t4) >= DEBOUNCE_TICKS
    ensures Run(s, cb, Click(t0, t1) + Click(t2, t3) + Click(t4, t5) + [ClickTimerFires]).1 == []
  {
    AcceptedClick(s, cb, t0, t1);
    var s1 := Run(s, cb, Click(t0, t1)).0;
    AcceptedClick(s1, cb, t2, t3);
    var s2 := Run(s1, cb, Click(t2, t3)).0;
    AcceptedClick(s2, cb, t4, t5);
    var s3 := Run(s2, cb, Click(t4, t5)).0;
    assert s3.clickCount == 3 && s3.clickTimerArmed;
    assert Click(t0, t1) + Click(t2, t3) + Click(t4, t5) + [ClickTimerFires]
        == Click(t0, t1) + (Click(t2, t3) + (Click(t4, t5) + [ClickTimerFires]));
    RunAppend(s, cb, Click(t0, t1), Click(t2, t3) + (Click(t4, t5) + [ClickTimerFires]));
    RunAppend(s1, cb, Click(t2, t3), Click(t4, t5) + [ClickTimerFires]);
    RunAppend(s2, cb, Click(t4, t5), [ClickTimerFires]);
    RunOne(s3, cb, ClickTimerFires);
    var none: seq<ButtonEvent> := [];
    assert none + (none + (none + none)) == none;
  }

  /**
    A press that bounces (a second press edge inside the debounce window)
    counts once: press, bounce, release and expiry give one single click.
  */
  lemma BounceScenario(s: ButtonState, cb: Callback, t0: Tick, t1: Tick, t2: Tick)
    requires cb.Handler? && Idle(s)
    requires Accepts(s, t0) && Elapsed(t1, t0) < DEBOUNCE_TICKS && Elapsed(t2, t0) >= DEBOUNCE_TICKS
    ensures Run(s, cb, [Edge(Press, t0), Edge(Press, t1), Edge(Release, t2), ClickTimerFires]).1 == [SingleClick]
  {
    var s1 := OnRawEvent(s, Some(Press), t0);
    assert OnRawEvent(s1, Some(Press), t1) == s1;
    var s2 := OnRawEvent(s1, Some(Release), t2);
    assert s2.clickCount == 1 && s2.clickTimerArmed;
    RunCons(s, cb, Edge(Press, t0), [Edge(Press, t1), Edge(Release, t2), ClickTimerFires]);
    RunCons(s1, cb, Edge(Press, t1), [Edge(Release, t2), ClickTimerFires]);
    RunCons(s1, cb, Edge(Release, t2), [ClickTimerFires]);
    RunOne(s2, cb, ClickTimerFires);
    assert [Edge(Press, t0)] + [Edge(Press, t1), Edge(Release, t2), ClickTimerFires]
        == [Edge(Press, t0), Edge(Press, t1), Edge(Release, t2), ClickTimerFires];
    assert [Edge(Press, t1)] + [Edge(Release, t2), ClickTimerFires] == [Edge(Press, t1), Edge(Release, t2), ClickTimerFires];
    assert [Edge(Release, t2)] + [ClickTimerFires] == [Edge(Release, t2), ClickTimerFires];
    assert [] + ([] + ([] + [SingleClick])) == [SingleClick];
  }

  /**
    A press held until the long-press timer fires: one long press and no
    click, although the release that follows restarts the click timer.
  */
  lemma LongPressScenario(s: ButtonState, cb: Callback, t0: Tick, t1: Tick)
    requires cb.Handler? && Idle(s)
    requires Accepts(s, t0)
    ensures Run(s, cb, [Edge(Press, t0), LongTimerFires, Edge(Release, t1), ClickTimerFires]).1 == [LongPress]
  {
    var s1 := OnRawEvent(s, Some(Press), t0);
    var rest := [Edge(Release, t1), ClickTimerFires];
    assert [Edge(Press, t0), LongTimerFires, Edge(Release, t1), ClickTimerFires] == [Edge(Press, t0)] + ([LongTimerFires] + rest);
    RunCons(s, cb, Edge(Press, t0), [LongTimerFires] + rest);
    LongPressPreemptsClicks(s1, cb, rest);
    assert [] + [LongPress] == [LongPress];
  }

  /**
    A tap shorter than the debounce window: its release is discarded, so the
    long-press timer keeps running and the tap is reported as a long press.
  */
  lemma ShortTapScenario(s: ButtonState, cb: Callback, t0: Tick, t1: Tick)
    requires cb.Handler? && Idle(s)
    requires Accepts(s, t0) && Elapsed(t1, t0) < DEBOUNCE_TICKS
    ensures Run(s, cb, [Edge(Press, t0), Edge(Release, t1), LongTimerFires, ClickTimerFires]).1 == [LongPress]
  {
    var s1 := OnRawEvent(s, Some(Press), t0);
    assert OnRawEvent(s1, Some(Release), t1) == s1;
    var rest := [ClickTimerFires];
    assert [Edge(Press, t0), Edge(Release, t1), LongTimerFires, ClickTimerFires]
        == [Edge(Press, t0)] + ([Edge(Release, t1)] + ([LongTimerFires] + rest));
    RunCons(s, cb, Edge(Press, t0), [Edge(Release, t1)] + ([LongTimerFires] + rest));
    RunCons(s1, cb, Edge(Release, t1), [LongTimerFires] + rest);
    LongPressPreemptsClicks(s1, cb, rest);
    assert [] + ([] + [LongPress]) == [LongPress];
  }

  /**
    The press branch leaves the click timer running. A click followed, before
    the click timer expires, by a press that is held reports a double click
    while the button is still down, and then a long press.
  */
  lemma ClickThenHoldScenario(s: ButtonState, cb: Callback, t0: Tick, t1: Tick, t2: Tick)
    requires cb.Handler? && Idle(s)
    requires Accepts(s, t0) && Elapsed(t1, t0) >= DEBOUNCE_TICKS && Elapsed(t2, t1) >= DEBOUNCE_TICKS
    ensures Run(s, cb, Click(t0, t1) + [Edge(Press, t2), ClickTimerFires, LongTimerFires]).1 == [DoubleClick, LongPress]
  {
    AcceptedClick(s, cb, t0, t1);
    var s1 := Run(s, cb, Click(t0, t1)).0;
    var s2 := OnRawEvent(s1, Some(Press), t2);
    assert s2.clickCount == 2 && s2.clickTimerArmed && s2.longTimerArmed;
    var s3 := OnClickTimer(s2, cb).0;
    RunAppend(s, cb, Click(t0, t1), [Edge(Press, t2), ClickTimerFires, LongTimerFires]);
    RunCons(s1, cb, Edge(Press, t2), [ClickTimerFires, LongTimerFires]);
    RunCons(s2, cb, ClickTimerFires, [LongTimerFires]);
    RunOne(s3, cb, LongTimerFires);
    assert [Edge(Press, t2)] + [ClickTimerFires, LongTimerFires] == [Edge(Press, t2), ClickTimerFires, LongTimerFires];
    assert [ClickTimerFires] + [LongTimerFires] == [ClickTimerFires, LongTimerFires];
    var none: seq<ButtonEvent> := [];
    assert none + (none + ([DoubleClick] + [LongPress])) == [DoubleClick, LongPress];
  }

  /**
    A button registered without a callback dispatches nothing over any trace
    it can run: the click-timer handler only warns, and edges never dispatch.
  */
  lemma {:induction false} NoCallbackNoDispatch(s: ButtonState, ins: seq<Input>)
    requires Runnable(NoCallback, ins)
    ensures Run(s, NoCallback, ins).1 == []
    decreases |ins|
  {
    if ins != [] {
      assert ins[0] != LongTimerFires;
      assert Step(s, NoCallback, ins[0]).1 == [];
      NoCallbackNoDispatch(Step(s, NoCallback, ins[0]).0, ins[1..]);
    }
  }
}
