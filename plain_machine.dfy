/**
  The per-button classification state machine of the fixed-array variant
  (main/button_driver.c). It has no debounce gate and no last-event tick;
  otherwise its press and release branches and its two timer expiries
  are those of the linked-list variant, except that the callback is always
  called unchecked.

  The one-shot timers are modelled by whether they are armed.
*/
module PlainMachine {
  import opened ButtonTypes

  /** The fields of button_t that the handlers change. */
  datatype ButtonState = ButtonState(
    clickCount: Uint8,
    lastPressTick: Tick,
    clickTimerArmed: bool,
    longTimerArmed: bool)

  /** A freshly registered slot: zeroed counters, timers created but not started. */
  const Registered: ButtonState := ButtonState(0, 0, false, false)

  /**
    One dequeued raw event for this button at tick `now`. `evt` is None for
    an event code that is neither EVENT_PRESS nor EVENT_RELEASE.
  */
  function OnRawEvent(s: ButtonState, evt: Option<RawEvent>, now: Tick): (r: ButtonState)
    ensures evt == Some(Press) ==>
      && r.clickCount == Inc8(s.clickCount)
      && r.lastPressTick == now
      && r.longTimerArmed
      && r.clickTimerArmed == s.clickTimerArmed
    ensures evt == Some(Release) ==>
      && r.clickCount == s.clickCount
      && r.lastPressTick == s.lastPressTick
      && !r.longTimerArmed
      && r.clickTimerArmed
    ensures evt == None ==> r == s
  {
    match evt
    case Some(Press) => s.(clickCount := Inc8(s.clickCount), lastPressTick := now, longTimerArmed := true)
    case Some(Release) => s.(longTimerArmed := false, clickTimerArmed := true)
    case None => s
  }

  /**
    The click timer's expiry (click_timer_cb): count 1 is a single click,
    count 2 a double click, any other count reports nothing; the count
    always returns to 0.
  */
  function OnClickTimer(s: ButtonState): (r: (ButtonState, Option<ButtonEvent>))
    ensures r.0 == s.(clickCount := 0, clickTimerArmed := false)
    ensures r.1 == Some(SingleClick) <==> s.clickCount == 1
    ensures r.1 == Some(DoubleClick) <==> s.clickCount == 2
    ensures r.1 == None <==> s.clickCount != 1 && s.clickCount != 2
    ensures r.1 != Some(LongPress)
  {
    var report :=
      if s.clickCount == 1 then Some(SingleClick)
      else if s.clickCount == 2 then Some(DoubleClick)
      else None;
    (s.(clickCount := 0, clickTimerArmed := false), report)
  }

  /**
    The long-press timer's expiry (long_press_timer_cb), whose report is
    always BUTTON_LONG_PRESS: the count returns to 0 and the click timer is
    stopped.
  */
  function OnLongPressTimer(s: ButtonState): (r: ButtonState)
    ensures r.clickCount == 0 && !r.clickTimerArmed && !r.longTimerArmed
    ensures r.lastPressTick == s.lastPressTick
  {
    s.(clickCount := 0, clickTimerArmed := false, longTimerArmed := false)
  }

  /** What can happen to one button: a dequeued edge, or the expiry of one of its timers. */
  datatype Input = Edge(evt: RawEvent, now: Tick) | ClickTimerFires | LongTimerFires

  predicate IsPress(i: Input)
  {
    i.Edge? && i.evt == Press
  }

  /** One input and the events it dispatches. A timer fires only while it is armed. */
  function Step(s: ButtonState, i: Input): (ButtonState, seq<ButtonEvent>)
  {
    match i
    case Edge(e, now) => (OnRawEvent(s, Some(e), now), [])
    case ClickTimerFires =>
      if !s.clickTimerArmed then (s, [])
      else
        var r := OnClickTimer(s);
        (r.0, if r.1.Some? then [r.1.value] else [])
    case LongTimerFires =>
      if !s.longTimerArmed then (s, []) else (OnLongPressTimer(s), [LongPress])
  }

  /** A run of inputs in order: the final state and every event dispatched. */
  function Run(s: ButtonState, ins: seq<Input>): (ButtonState, seq<ButtonEvent>)
    decreases |ins|
  {
    if ins == [] then (s, [])
    else
      var first := Step(s, ins[0]);
      var rest := Run(first.0, ins[1..]);
      (rest.0, first.1 + rest.1)
  }

  /** Running `[i] + rest` is one step, then the rest. */
  lemma RunCons(s: ButtonState, i: Input, rest: seq<Input>)
    ensures var first := Step(s, i); var r := Run(first.0, rest);
      Run(s, [i] + rest) == (r.0, first.1 + r.1)
  {
    assert ([i] + rest)[0] == i && ([i] + rest)[1..] == rest;
  }

  /** Running a single input is taking that one step. */
  lemma RunOne(s: ButtonState, i: Input)
    ensures Run(s, [i]) == Step(s, i)
  {
    RunCons(s, i, []);
    assert Step(s, i).1 + [] == Step(s, i).1;
  }

  /** Running `a + b` is running `a`, then `b` from where `a` left off. */
  lemma {:induction false} RunAppend(s: ButtonState, a: seq<Input>, b: seq<Input>)
    ensures var ra := Run(s, a); var rb := Run(ra.0, b);
      Run(s, a + b) == (rb.0, ra.1 + rb.1)
    decreases |a|
  {
    if a == [] {
      assert a + b == b;
      assert [] + Run(s, b).1 == Run(s, b).1;
    } else {
      assert a + b == [a[0]] + (a[1..] + b);
      assert a == [a[0]] + a[1..];
      var first := Step(s, a[0]);
      RunCons(s, a[0], a[1..] + b);
      RunCons(s, a[0], a[1..]);
      RunAppend(first.0, a[1..], b);
      assert first.1 + (Run(first.0, a[1..]).1 + Run(Run(first.0, a[1..]).0, b).1)
          == (first.1 + Run(first.0, a[1..]).1) + Run(Run(first.0, a[1..]).0, b).1;
    }
  }

  /** A run of press edges only, at the given ticks. */
  function Presses(ts: seq<Tick>): (r: seq<Input>)
    ensures |r| == |ts| && forall k :: 0 <= k < |r| ==> r[k] == Edge(Press, ts[k])
    decreases |ts|
  {
    if ts == [] then [] else [Edge(Press, ts[0])] + Presses(ts[1..])
  }

  /**
    With no debounce every press edge is counted: n press edges in a row
    raise the 8-bit click count by n, modulo 256, and dispatch nothing.
  */
  lemma {:induction false} EveryPressCounts(s: ButtonState, ts: seq<Tick>)
    ensures Run(s, Presses(ts)).1 == []
    ensures Run(s, Presses(ts)).0.clickCount == (s.clickCount + |ts|) % 0x100
    decreases |ts|
  {
    if ts != [] {
      var t := OnRawEvent(s, Some(Press), ts[0]);
      RunCons(s, Edge(Press, ts[0]), Presses(ts[1..]));
      EveryPressCounts(t, ts[1..]);
      assert [] + [] == Run(s, Presses(ts)).1;
      assert (Inc8(s.clickCount) + |ts| - 1) % 0x100 == (s.clickCount + |ts|) % 0x100;
    }
  }

  /**
    With no pending click and the long-press timer stopped, a button that is
    never pressed dispatches nothing and keeps its count at 0.
  */
  lemma {:induction false} NoPressNoDispatch(s: ButtonState, ins: seq<Input>)
    requires s.clickCount == 0 && !s.longTimerArmed
    requires forall k :: 0 <= k < |ins| ==> !IsPress(ins[k])
    ensures Run(s, ins).1 == []
    ensures Run(s, ins).0.clickCount == 0 && !Run(s, ins).0.longTimerArmed
    decreases |ins|
  {
    if ins != [] {
      assert !IsPress(ins[0]);
      var t := Step(s, ins[0]).0;
      assert Step(s, ins[0]).1 == [] && t.clickCount == 0 && !t.longTimerArmed;
      NoPressNoDispatch(t, ins[1..]);
    }
  }

  /**
    Once the long-press timer fires, the interaction dispatches exactly one
    BUTTON_LONG_PRESS and no click, even after the release.
  */
  lemma LongPressPreemptsClicks(s: ButtonState, rest: seq<Input>)
    requires s.longTimerArmed
    requires forall k :: 0 <= k < |rest| ==> !IsPress(rest[k])
    ensures Run(s, [LongTimerFires] + rest).1 == [LongPress]
  {
    RunCons(s, LongTimerFires, rest);
    NoPressNoDispatch(OnLongPressTimer(s), rest);
  }

  /** An idle slot: nothing counted, no timer running. */
  predicate Idle(s: ButtonState)
  {
    s.clickCount == 0 && !s.clickTimerArmed && !s.longTimerArmed
  }

  /** Press, release, and the click timer expires: one single click. */
  lemma SingleClickScenario(s: ButtonState, t0: Tick, t1: Tick)
    requires Idle(s)
    ensures Run(s, [Edge(Press, t0), Edge(Release, t1), ClickTimerFires]) == (s.(lastPressTick := t0), [SingleClick])
  {
    var s1 := OnRawEvent(s, Some(Press), t0);
    var s2 := OnRawEvent(s1, Some(Release), t1);
    RunCons(s, Edge(Press, t0), [Edge(Release, t1), ClickTimerFires]);
    RunCons(s1, Edge(Release, t1), [ClickTimerFires]);
    RunOne(s2, ClickTimerFires);
    assert [Edge(Press, t0)] + [Edge(Release, t1), ClickTimerFires] == [Edge(Press, t0), Edge(Release, t1), ClickTimerFires];
    assert [Edge(Release, t1)] + [ClickTimerFires] == [Edge(Release, t1), ClickTimerFires];
    assert [] + ([] + [SingleClick]) == [SingleClick];
  }

  /**
    Without a debounce gate, a press whose contact bounces (a second press
    edge before the release) is counted twice and reported as a double click.
  */
  lemma BouncedPressIsDoubleClick(s: ButtonState, t0: Tick, t1: Tick, t2: Tick)
    requires Idle(s)
    ensures Run(s, [Edge(Press, t0), Edge(Press, t1), Edge(Release, t2), ClickTimerFires]).1 == [DoubleClick]
  {
    var s1 := OnRawEvent(s, Some(Press), t0);
    var s2 := OnRawEvent(s1, Some(Press), t1);
    var s3 := OnRawEvent(s2, Some(Release), t2);
    assert s3.clickCount == 2 && s3.clickTimerArmed;
    RunCons(s, Edge(Press, t0), [Edge(Press, t1), Edge(Release, t2), ClickTimerFires]);
    RunCons(s1, Edge(Press, t1), [Edge(Release, t2), ClickTimerFires]);
    RunCons(s2, Edge(Release, t2), [ClickTimerFires]);
    RunOne(s3, ClickTimerFires);
    assert [Edge(Press, t0)] + [Edge(Press, t1), Edge(Release, t2), ClickTimerFires]
        == [Edge(Press, t0), Edge(Press, t1), Edge(Release, t2), ClickTimerFires];
    assert [Edge(Press, t1)] + [Edge(Release, t2), ClickTimerFires] == [Edge(Press, t1), Edge(Release, t2), ClickTimerFires];
    assert [Edge(Release, t2)] + [ClickTimerFires] == [Edge(Release, t2), ClickTimerFires];
    assert [] + ([] + ([] + [DoubleClick])) == [DoubleClick];
  }

  /** A press held until the long-press timer fires: one long press and no click. */
  lemma LongPressScenario(s: ButtonState, t0: Tick, t1: Tick)
    requires Idle(s)
    ensures Run(s, [Edge(Press, t0), LongTimerFires, Edge(Release, t1), ClickTimerFires]).1 == [LongPress]
  {
    var s1 := OnRawEvent(s, Some(Press), t0);
    var rest := [Edge(Release, t1), ClickTimerFires];
    assert [Edge(Press, t0), LongTimerFires, Edge(Release, t1), ClickTimerFires] == [Edge(Press, t0)] + ([LongTimerFires] + rest);
    RunCons(s, Edge(Press, t0), [LongTimerFires] + rest);
    LongPressPreemptsClicks(s1, rest);
    assert [] + [LongPress] == [LongPress];
  }
}
