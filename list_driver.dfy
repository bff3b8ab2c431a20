/**
  The linked-list variant of the driver (components/button/button_driver.c):
  the registry is a singly linked list of `Button` nodes that registration
  prepends to; the button task's loop body, the two timer expiry handlers, the
  interrupt handler and the idempotent initialisation act on it and on the
  process-wide queue. Each handler is one atomic step.
*/
module ListDriver {
  import opened ButtonTypes
  import opened EdgeCapture
  import opened EventChannel
  import M = DebouncedMachine

  /** One registry node (button_t). Line, callback and link are fixed at registration. */
  class Button {
    const gpio: Gpio
    const callback: Callback
    const next: Button?
    var clickCount: Uint8
    var lastPressTick: Tick
    var lastEventTick: Tick
    var clickTimerArmed: bool
    var longTimerArmed: bool

    /** The fields the handlers change, as a value of the state machine. */
    function State(): M.ButtonState
      reads this
    {
      M.ButtonState(clickCount, lastPressTick, lastEventTick, clickTimerArmed, longTimerArmed)
    }

    /** A zeroed node linked in front of `next` (calloc, field set-up and `btn->next = head`). */
    constructor (gpio: Gpio, callback: Callback, next: Button?)
      ensures this.gpio == gpio && this.callback == callback && this.next == next
      ensures State() == M.Registered
    {
      this.gpio := gpio;
      this.callback := callback;
      this.next := next;
      clickCount := 0;
      lastPressTick := 0;
      lastEventTick := 0;
      clickTimerArmed := false;
      longTimerArmed := false;
    }
  }

  /** No two of the nodes watch the same line. */
  ghost predicate DistinctGpios(nodes: seq<Button>)
  {
    forall i, j :: 0 <= i < j < |nodes| ==> nodes[i].gpio != nodes[j].gpio
  }

  /** `head` is the first of `nodes` and each node links to the one after it. */
  ghost predicate ListShape(head: Button?, nodes: seq<Button>)
  {
    && (nodes == [] ==> head == null)
    && (nodes != [] ==> head == nodes[0] && nodes[|nodes| - 1].next == null)
    && (forall i :: 0 <= i < |nodes| - 1 ==> nodes[i].next == nodes[i + 1])
  }

  /** The driver's global state: the registry, the queue and the initialisation guards. */
  class Driver {
    /** button_list_head */
    var head: Button?
    /** The nodes reachable from `head`, in list order. */
    ghost var nodes: seq<Button>
    /** button_evt_queue (NULL until created) */
    var queue: EventQueue?
    /** isr_service_installed */
    var isrServiceInstalled: bool
    /** How many times the button task was created and the ISR service installed. */
    ghost var tasksStarted: nat
    ghost var isrServiceInstalls: nat
    /** Every callback invocation so far, and every warning logged. */
    ghost var dispatched: seq<Dispatch>
    ghost var warnings: seq<Warning>

    ghost predicate Valid()
      reads this, queue
    {
      && ListShape(head, nodes)
      && DistinctGpios(nodes)
      && isrServiceInstalls <= 1
      && (isrServiceInstalled <==> isrServiceInstalls == 1)
      && (queue != null ==> queue.Valid() && queue.capacity == QUEUE_LENGTH)
    }

    /** Some node watches `gpio`. */
    ghost predicate Registered(gpio: Gpio)
      reads this
    {
      exists i :: 0 <= i < |nodes| && nodes[i].gpio == gpio
    }

    /** The static initial state: empty list, no queue, no ISR service. */
    constructor ()
      ensures Valid()
      ensures head == null && nodes == [] && queue == null && !isrServiceInstalled
      ensures tasksStarted == 0 && isrServiceInstalls == 0 && dispatched == [] && warnings == []
    {
      head := null;
      nodes := [];
      queue := null;
      isrServiceInstalled := false;
      tasksStarted := 0;
      isrServiceInstalls := 0;
      dispatched := [];
      warnings := [];
    }

    /** find_button: walks the list for the node watching `gpio`. */
    method FindButton(gpio: Gpio) returns (b: Button?)
      requires Valid()
      ensures b == null <==> !Registered(gpio)
      ensures b != null ==> b in nodes && b.gpio == gpio
    {
      var p := head;
      ghost var k := 0;
      while p != null
        invariant 0 <= k <= |nodes|
        invariant p == (if k < |nodes| then nodes[k] else null)
        invariant forall j :: 0 <= j < k ==> nodes[j].gpio != gpio
        decreases |nodes| - k
      {
        if p.gpio == gpio {
          return p;
        }
        p := p.next;
        k := k + 1;
      }
      return null;
    }

    /**
      The registry part of button_register. A line already registered is
      rejected with a warning; `allocOk` says whether calloc succeeded.
      Otherwise one zeroed node is prepended.
    */
    method Register(gpio: Gpio, callback: Callback, allocOk: bool)
      requires Valid()
      modifies this
      ensures Valid()
      ensures queue == old(queue) && isrServiceInstalled == old(isrServiceInstalled)
      ensures tasksStarted == old(tasksStarted) && isrServiceInstalls == old(isrServiceInstalls)
      ensures dispatched == old(dispatched)
      ensures old(Registered(gpio)) ==>
        nodes == old(nodes) && head == old(head) && warnings == old(warnings) + [AlreadyRegistered(gpio)]
      ensures !old(Registered(gpio)) && !allocOk ==>
        nodes == old(nodes) && head == old(head) && warnings == old(warnings) + [OutOfMemory]
      ensures !old(Registered(gpio)) && allocOk ==>
        && |nodes| == |old(nodes)| + 1 && nodes[1..] == old(nodes)
        && fresh(nodes[0]) && nodes[0].gpio == gpio && nodes[0].callback == callback
        && nodes[0].State() == M.Registered
        && warnings == old(warnings)
      ensures forall b :: b in old(nodes) ==> b.State() == old(b.State())
    {
      var existing := FindButton(gpio);
      if existing != null {
        warnings := warnings + [AlreadyRegistered(gpio)];
        return;
      }
      if !allocOk {
        warnings := warnings + [OutOfMemory];
        return;
      }
      var btn := new Button(gpio, callback, head);
      head := btn;
      nodes := [btn] + nodes;
    }

    /**
      button_driver_init. Only while there is no queue does it create one
      (`created` says whether xQueueCreate succeeded), start the button task and,
      if not done before, install the ISR service.
    */
    method Init(created: bool)
      requires Valid()
      modifies this
      ensures Valid()
      ensures head == old(head) && nodes == old(nodes)
      ensures dispatched == old(dispatched) && warnings == old(warnings)
      ensures old(queue) != null ==>
        && queue == old(queue) && tasksStarted == old(tasksStarted)
        && isrServiceInstalled == old(isrServiceInstalled) && isrServiceInstalls == old(isrServiceInstalls)
      ensures old(queue) == null ==>
        && tasksStarted == old(tasksStarted) + 1
        && isrServiceInstalled && isrServiceInstalls == 1
        && (created ==> queue != null && fresh(queue) && queue.items == [])
        && (!created ==> queue == null)
    {
      if queue == null {
        if created {
          queue := new EventQueue(QUEUE_LENGTH);
        }
        tasksStarted := tasksStarted + 1;
        if !isrServiceInstalled {
          isrServiceInstalls := isrServiceInstalls + 1;
          isrServiceInstalled := true;
        }
      }
    }

    /**
      gpio_isr_handler: reads `level` on `gpio` and offers the packed
      record to the queue; a full queue drops it and the result is ignored.
    */
    method IsrHandler(gpio: Gpio, level: int)
      requires Valid() && queue != null
      modifies queue
      ensures Valid()
      ensures queue.items == Offer(old(queue.items), queue.capacity, Capture(gpio, level))
    {
      var evt := LevelToRaw(level);
      var data := OrLow8(Shl8(gpio % 0x1_0000_0000), RawCode(evt));
      var _ := queue.SendFromIsr(data);
    }

    /**
      One iteration of button_task at tick `now`: take the front record,
      find its button, apply the debounce gate and the press or release
      branch. Returns the button acted on. An empty queue is where the button task
      blocks: nothing changes.
    */
    method TaskStep(now: Tick) returns (target: Button?)
      requires Valid() && queue != null
      modifies queue, nodes
      ensures Valid()
      ensures old(queue.items) == [] ==> queue.items == [] && target == null
      ensures old(queue.items) != [] ==>
        && queue.items == old(queue.items)[1..]
        && var (gpio, code) := Unpack(old(queue.items)[0]);
        && (target == null <==> !Registered(gpio))
        && (target != null ==>
              && target in nodes && target.gpio == gpio
              && target.State() == M.OnRawEvent(old(target.State()), DecodeKind(code), now))
      ensures forall b :: b in nodes && b != target ==> b.State() == old(b.State())
    {
      var data := queue.Receive();
      if data.None? {
        return null;
      }
      var gpio := Low8(Shr8(data.value));
      var evt := Low8(data.value);
      target := FindButton(gpio);
      if target == null {
        return;
      }
      if Elapsed(now, target.lastEventTick) < DEBOUNCE_TICKS {
        return;
      }
      target.lastEventTick := now;
      if evt == RawCode(Press) {
        target.clickCount := Inc8(target.clickCount);
        target.lastPressTick := now;
        target.longTimerArmed := true;
      } else if evt == RawCode(Release) {
        target.longTimerArmed := false;
        target.clickTimerArmed := true;
      }
    }

    /**
      click_timer_cb for `btn`: count 1 dispatches a single click, count 2 a
      double click, a missing callback logs a warning instead, and the count
      returns to 0. The expired one-shot timer is no longer armed.
    */
    method ClickTimerExpired(btn: Button)
      requires Valid() && btn in nodes
      modifies btn, this`dispatched, this`warnings
      ensures Valid()
      ensures var r := M.OnClickTimer(old(btn.State()), btn.callback);
        && btn.State() == r.0
        && dispatched == old(dispatched) + (if r.1.Emitted? then [Dispatch(r.1.event, btn.gpio, btn.callback.id)] else [])
        && warnings == old(warnings) + (if r.1.Warned? then [r.1.warning] else [])
    {
      if btn.clickCount == 1 {
        if btn.callback.Handler? {
          dispatched := dispatched + [Dispatch(SingleClick, btn.gpio, btn.callback.id)];
        } else {
          warnings := warnings + [ClickCallbackNotSet];
        }
      } else if btn.clickCount == 2 {
        if btn.callback.Handler? {
          dispatched := dispatched + [Dispatch(DoubleClick, btn.gpio, btn.callback.id)];
        } else {
          warnings := warnings + [DoubleCallbackNotSet];
        }
      }
      btn.clickCount := 0;
      btn.clickTimerArmed := false;
    }

    /**
      long_press_timer_cb for `btn`: dispatches a long press, resets the
      count and stops the click timer. It calls the callback unchecked, so
      the button must have one.
    */
    method LongPressTimerExpired(btn: Button)
      requires Valid() && btn in nodes && btn.callback.Handler?
      modifies btn, this`dispatched
      ensures Valid()
      ensures btn.State() == M.OnLongPressTimer(old(btn.State()))
      ensures dispatched == old(dispatched) + [Dispatch(LongPress, btn.gpio, btn.callback.id)]
    {
      dispatched := dispatched + [Dispatch(LongPress, btn.gpio, btn.callback.id)];
      btn.clickCount := 0;
      btn.clickTimerArmed := false;
      btn.longTimerArmed := false;
    }
  }

  /**
    Two initialisations in a row: once a queue exists the second call
    creates no second queue or task, and the ISR service is installed at
    most once whatever the allocator does.
  */
  method InitTwice(d: Driver, first: bool, second: bool)
    requires d.Valid()
    modifies d
    ensures d.Valid() && d.isrServiceInstalls <= 1 && d.nodes == old(d.nodes)
    ensures old(d.queue) != null ==> d.queue == old(d.queue) && d.tasksStarted == old(d.tasksStarted)
    ensures old(d.queue) == null && first ==>
      d.tasksStarted == old(d.tasksStarted) + 1 && d.isrServiceInstalled && d.queue != null && d.queue.items == []
  {
    d.Init(first);
    ghost var afterFirst := d.tasksStarted;
    ghost var q := d.queue;
    d.Init(second);
    assert q != null ==> d.tasksStarted == afterFirst && d.queue == q;
  }
}
