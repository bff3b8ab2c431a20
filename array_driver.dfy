/**
  The fixed-array variant of the driver (main/button_driver.c): the
  registry is a static array of MAX_BUTTONS slots filled in order, with no
  duplicate check, and lookup scans the filled prefix. Each handler is one
  atomic step.
*/
module ArrayDriver {
  import opened ButtonTypes
  import opened EdgeCapture
  import opened EventChannel
  import P = PlainMachine

  /** One slot of the registry (button_t): its line, its callback and its state. */
  datatype Entry = Entry(gpio: Gpio, callback: Callback, state: P.ButtonState)

  /** A slot of the zero-initialised static array. */
  const EmptySlot: Entry := Entry(0, NoCallback, P.Registered)

  /** The driver's global state: the slots, the queue and the dispatch log. */
  class Driver {
    /** buttons[MAX_BUTTONS] */
    const buttons: array<Entry>
    /** button_count */
    var count: nat
    /** button_evt_queue (NULL until created) */
    var queue: EventQueue?
    /** How many times the button task was created and the ISR service installed. */
    ghost var tasksStarted: nat
    ghost var isrServiceInstalls: nat
    /** Every callback invocation so far, and every warning logged. */
    ghost var dispatched: seq<Dispatch>
    ghost var warnings: seq<Warning>

    ghost predicate Valid()
      reads this, queue
    {
      && buttons.Length == MAX_BUTTONS
      && count <= MAX_BUTTONS
      && isrServiceInstalls == tasksStarted
      && (queue != null ==> queue.Valid() && queue.capacity == QUEUE_LENGTH)
    }

    /** The static initial state: every slot zeroed, none in use, no queue. */
    constructor ()
      ensures Valid() && fresh(buttons)
      ensures count == 0 && queue == null && buttons[..] == seq(MAX_BUTTONS, _ => EmptySlot)
      ensures tasksStarted == 0 && dispatched == [] && warnings == []
    {
      buttons := new Entry[MAX_BUTTONS](_ => EmptySlot);
      count := 0;
      queue := null;
      tasksStarted := 0;
      isrServiceInstalls := 0;
      dispatched := [];
      warnings := [];
    }

    /**
      find_button: the lowest used slot watching `gpio`, if any. A later slot
      registered for the same line is therefore never found.
    */
    method FindButton(gpio: Gpio) returns (idx: Option<nat>)
      requires Valid()
      ensures idx == None <==> forall i :: 0 <= i < count ==> buttons[i].gpio != gpio
      ensures idx.Some? ==>
        && idx.value < count && buttons[idx.value].gpio == gpio
        && forall j :: 0 <= j < idx.value ==> buttons[j].gpio != gpio
    {
      for i := 0 to count
        invariant forall j :: 0 <= j < i ==> buttons[j].gpio != gpio
      {
        if buttons[i].gpio == gpio {
          return Some(i);
        }
      }
      return None;
    }

    /**
      The registry part of button_register: refuses with a warning once all
      MAX_BUTTONS slots are used; otherwise fills the next slot with a zeroed
      state. A line already registered is not checked for.
    */
    method Register(gpio: Gpio, callback: Callback)
      requires Valid()
      modifies this, buttons
      ensures Valid()
      ensures queue == old(queue) && tasksStarted == old(tasksStarted) && dispatched == old(dispatched)
      ensures old(count) >= MAX_BUTTONS ==>
        count == old(count) && buttons[..] == old(buttons[..]) && warnings == old(warnings) + [MaxButtonsReached]
      ensures old(count) < MAX_BUTTONS ==>
        && count == old(count) + 1
        && buttons[..] == old(buttons[..])[old(count) := Entry(gpio, callback, P.Registered)]
        && warnings == old(warnings)
    {
      if count >= MAX_BUTTONS {
        warnings := warnings + [MaxButtonsReached];
        return;
      }
      buttons[count] := Entry(gpio, callback, P.Registered);
      count := count + 1;
    }

    /**
      button_driver_init: only while there is no queue does it create one
      (`created` says whether xQueueCreate succeeded), start the button task and
      install the ISR service.
    */
    method Init(created: bool)
      requires Valid()
      modifies this
      ensures Valid()
      ensures count == old(count) && dispatched == old(dispatched) && warnings == old(warnings)
      ensures old(queue) != null ==> queue == old(queue) && tasksStarted == old(tasksStarted)
      ensures old(queue) == null ==>
        && tasksStarted == old(tasksStarted) + 1
        && (created ==> queue != null && fresh(queue) && queue.items == [])
        && (!created ==> queue == null)
    {
      if queue == null {
        if created {
          queue := new EventQueue(QUEUE_LENGTH);
        }
        tasksStarted := tasksStarted + 1;
        isrServiceInstalls := isrServiceInstalls + 1;
      }
    }

    /** gpio_isr_handler: offers the packed record; a full queue drops it. */
    method IsrHandler(gpio: Gpio, level: int)
      requires Valid() && queue != null
      modifies queue
      ensures Valid()
      ensures queue.items == Offer(old(queue.items), queue.capacity, Capture(gpio, level))
    {
      var evt := LevelToRaw(level);
      var data := OrLow8(Shl8(gpio % 0x1_0000_0000), RawCode(evt));
      var _ := queue.SendFromIsr(data);
    }

    /**
      One iteration of button_task at tick `now`: take the front record,
      find its slot and apply the press or release branch. An event for an
      unregistered line, or an empty queue, changes no slot.
    */
    method TaskStep(now: Tick) returns (target: Option<nat>)
      requires Valid() && queue != null
      modifies queue, buttons
      ensures Valid()
      ensures old(queue.items) == [] ==> queue.items == [] && target == None && buttons[..] == old(buttons[..])
      ensures old(queue.items) != [] ==>
        && queue.items == old(queue.items)[1..]
        && var (gpio, code) := Unpack(old(queue.items)[0]);
        && (target == None <==> forall i :: 0 <= i < count ==> buttons[i].gpio != gpio)
        && (target == None ==> buttons[..] == old(buttons[..]))
        && (target.Some? ==>
              && target.value < count && buttons[target.value].gpio == gpio
              && (forall j :: 0 <= j < target.value ==> buttons[j].gpio != gpio)
              && buttons[..] == old(buttons[..])[target.value :=
                   old(buttons[target.value]).(state := P.OnRawEvent(old(buttons[target.value]).state, DecodeKind(code), now))])
    {
      var data := queue.Receive();
      if data.None? {
        return None;
      }
      var gpio := Low8(Shr8(data.value));
      var evt := Low8(data.value);
      target := FindButton(gpio);
      if target.None? {
        return;
      }
      var i := target.value;
      var st := buttons[i].state;
      if evt == RawCode(Press) {
        buttons[i] := buttons[i].(state := st.(clickCount := Inc8(st.clickCount), lastPressTick := now, longTimerArmed := true));
      } else if evt == RawCode(Release) {
        buttons[i] := buttons[i].(state := st.(longTimerArmed := false, clickTimerArmed := true));
      }
    }

    /**
      click_timer_cb for slot `i`: count 1 dispatches a single click, count 2
      a double click, and the count returns to 0. The callback is called
      unchecked, so a slot that reports must have one.
    */
    method ClickTimerExpired(i: nat)
      requires Valid() && i < count
      requires buttons[i].state.clickCount == 1 || buttons[i].state.clickCount == 2 ==> buttons[i].callback.Handler?
      modifies buttons, this`dispatched
      ensures Valid()
      ensures var r := P.OnClickTimer(old(buttons[i].state));
        && buttons[..] == old(buttons[..])[i := old(buttons[i]).(state := r.0)]
        && dispatched == old(dispatched) + (if r.1.Some? then [Dispatch(r.1.value, buttons[i].gpio, buttons[i].callback.id)] else [])
    {
      var btn := buttons[i];
      if btn.state.clickCount == 1 {
        dispatched := dispatched + [Dispatch(SingleClick, btn.gpio, btn.callback.id)];
      } else if btn.state.clickCount == 2 {
        dispatched := dispatched + [Dispatch(DoubleClick, btn.gpio, btn.callback.id)];
      }
      buttons[i] := btn.(state := btn.state.(clickCount := 0, clickTimerArmed := false));
    }

    /**
      long_press_timer_cb for slot `i`: dispatches a long press, resets the
      count and stops the click timer. The callback is called unchecked.
    */
    method LongPressTimerExpired(i: nat)
      requires Valid() && i < count && buttons[i].callback.Handler?
      modifies buttons, this`dispatched
      ensures Valid()
      ensures buttons[..] == old(buttons[..])[i := old(buttons[i]).(state := P.OnLongPressTimer(old(buttons[i].state)))]
      ensures dispatched == old(dispatched) + [Dispatch(LongPress, buttons[i].gpio, buttons[i].callback.id)]
    {
      var btn := buttons[i];
      dispatched := dispatched + [Dispatch(LongPress, btn.gpio, btn.callback.id)];
      buttons[i] := btn.(state := btn.state.(clickCount := 0, clickTimerArmed := false, longTimerArmed := false));
    }
  }
}
