# Button event classifier — a Dafny model

This project models the button driver of an ESP32 firmware. The driver turns
raw press/release edges on GPIO lines into three semantic events:
`BUTTON_SINGLE_CLICK`, `BUTTON_DOUBLE_CLICK` and `BUTTON_LONG_PRESS`. The
driver exists in two variants, and both are modelled:

- **Linked-list variant** (`components/button/button_driver.c`). The registry
  is a linked list that rejects duplicate GPIOs. The button task applies a 20-tick
  debounce gate per button. Initialisation is guarded by the queue handle and
  by an `isr_service_installed` flag.
- **Array variant** (`main/button_driver.c`). The registry is a fixed array of
  10 slots, filled in order, with no duplicate check. There is no debounce.

The interrupt handler works the same way in both variants. It maps level 0
to a press and any other level to a release. It packs `(gpio << 8) | evt`
into a 32-bit record and offers it to a 16-record FreeRTOS queue without
blocking. The button task takes records from that queue, unpacks them, looks
up the button and runs the press or release branch. Press (re)arms the
long-press timer. Release stops the long-press timer and (re)arms the click
timer. When the click timer expires, it classifies the click count: 1 is a
single click, 2 is a double click, and any other count reports nothing. When
the long-press timer expires, it reports a long press, resets the count and
stops the click timer.

Files and modules:

| file | module | what |
|---|---|---|
| button_types.dfy | `ButtonTypes` | event enum, raw events, 32-bit ticks, the uint8 counter, callbacks, the dispatch and warning records, constants |
| edge_capture.dfy | `EdgeCapture` | level mapping, record packing and unpacking (uint32 bit operations written as the arithmetic they amount to) |
| event_channel.dfy | `EventChannel` | the bounded queue that drops on overflow (`EventQueue` class) and a pure description of a burst of sends |
| debounced_machine.dfy | `DebouncedMachine` | linked-list variant: per-button transitions as pure functions, a trace semantics `Run`, and lemmas about traces |
| list_driver.dfy | `ListDriver` | linked-list variant, imperative: `Button` nodes, a `Driver` holding the list, queue and init guards, and one method per handler |
| plain_machine.dfy | `PlainMachine` | array variant: per-button transitions, `Run`, and lemmas |
| array_driver.dfy | `ArrayDriver` | array variant, imperative: a `Driver` over an `array<Entry>` of 10 slots |

Each handler method (`FindButton`, `Register`, `Init`, `IsrHandler`,
`TaskStep`, `ClickTimerExpired`, `LongPressTimerExpired`) follows the C
code's branches step by step. Its `ensures` ties the new state of the button
to the matching pure transition in the machine module. The trace lemmas are
stated over those transitions.

A timer is modelled as armed or not armed. Starting a timer arms it. A timer
that expires is no longer armed. In a trace, a timer may fire at any point
while it is armed. The trace lemmas therefore hold for every timing of the
expiries, not only for the nominal 100- and 500-tick periods. Callback
invocations are recorded in a ghost log `dispatched`, and logged diagnostics
in a ghost log `warnings`.

Three details of the code that the model keeps:

- Only a count of exactly 2 dispatches `BUTTON_DOUBLE_CLICK`. A count of 3 or
  more dispatches nothing and is reset (`DebouncedMachine.TripleClickScenario`).
- Every non-zero level is a release (`EdgeCapture.LevelToRaw`).
- Only the click-timer handler of the linked-list variant checks for a missing
  callback; it then logs a warning instead of dispatching
  (`DebouncedMachine.NoCallbackNoDispatch`). The long-press handler and both
  handlers of the array variant call the callback unchecked. The handler
  methods require a callback exactly there. A trace of the linked-list
  variant (`DebouncedMachine.Run`) needs a callback only when it contains a
  long-press expiry (`DebouncedMachine.Runnable`).

Three consequences of the code, proved as lemmas:

- Linked-list variant: a tap shorter than the debounce window has its release
  discarded. The long-press timer keeps running, so the tap is reported as a
  long press (`DebouncedMachine.ShortTapScenario`).
- Array variant: a contact bounce counts twice, so a bounced single press is
  reported as a double click (`PlainMachine.BouncedPressIsDoubleClick`).
- Linked-list variant: the press branch does not stop the click timer. A click
  followed, before the click timer expires, by a held press dispatches a
  double click while the button is still down, and then a long press
  (`DebouncedMachine.ClickThenHoldScenario`).

## Model

| member | source | states |
|---|---|---|
| ButtonTypes.Elapsed | components/button/button_driver.c:119 | `now - last_event_tick` in unsigned 32-bit arithmetic: the plain difference, or the difference plus 2^32 when the tick counter has wrapped |
| ButtonTypes.Inc8 | components/button/button_driver.c:128 | `click_count++` on a uint8_t: adds one, and 255 wraps to 0 |
| EdgeCapture.LevelToRaw | components/button/button_driver.c:63 | active-low mapping, in both directions: level 0 is exactly a press, and every other level is a release |
| EdgeCapture.Pack | components/button/button_driver.c:64 | the low byte of the record is the event code; for a GPIO below 256, unpacking returns exactly the original GPIO and code (same code at main/button_driver.c:52) |
| EdgeCapture.Unpack | components/button/button_driver.c:112-113 | both decoded fields are below 256, as masking with 0xFF guarantees (same code at main/button_driver.c:85-86) |
| EdgeCapture.DecodeKind | components/button/button_driver.c:126-136 | code 0 takes the press branch, code 1 the release branch, and any other code neither branch |
| EdgeCapture.CaptureRoundTrip | components/button/button_driver.c:59-66 | the button task recovers the interrupt's GPIO and the press/release chosen by the level, whenever the GPIO fits in 8 bits |
| EdgeCapture.PackTruncatesGpio | components/button/button_driver.c:64 | for any GPIO number, the button task decodes the GPIO modulo 256 |
| EventChannel.Offer | components/button/button_driver.c:65 | a send appends the record when the queue has room and otherwise leaves the queue as it was |
| EventChannel.OfferAllKeepsEarliest | components/button/button_driver.c:65 | a burst of sends keeps what was already queued plus the earliest arrivals that fit; nothing is lost when the burst fits, and once the queue is full every later record is dropped |
| EventChannel.EventQueue.constructor | components/button/button_driver.c:147 | a created queue is empty and has the given capacity |
| EventChannel.EventQueue.SendFromIsr | components/button/button_driver.c:65 | succeeds exactly when the queue is not full; the new contents are `Offer` of the old ones |
| EventChannel.EventQueue.Receive | components/button/button_driver.c:110 | takes the front record in FIFO order; on an empty queue (where the button task blocks) nothing changes |
| DebouncedMachine.OnRawEvent | components/button/button_driver.c:118-136 | an edge inside the debounce window leaves the button unchanged. An accepted edge sets `last_event_tick`. An accepted press adds one to the count (wrapping), records the press tick and arms the long-press timer, leaving the click timer alone. An accepted release stops the long-press timer and arms the click timer, leaving the count and the press tick alone |
| DebouncedMachine.OnClickTimer | components/button/button_driver.c:68-95 | the report is a single click exactly when count is 1 and there is a callback, a double click exactly when count is 2 and there is a callback, the matching warning when the callback is missing, and nothing for every other count; the count ends at 0 |
| DebouncedMachine.OnLongPressTimer | components/button/button_driver.c:97-103 | count 0, click timer stopped, long-press timer expired; the press and event ticks are kept |
| DebouncedMachine.DispatchesBoundedByExpiries | components/button/button_driver.c:68-136 | over any trace, at most one event is dispatched per timer expiry, and raw edges dispatch nothing |
| DebouncedMachine.BounceIsDiscarded | components/button/button_driver.c:118-123 | any burst of edges inside the debounce window of the last accepted edge leaves the button exactly as it was and dispatches nothing |
| DebouncedMachine.NoPressNoDispatch | components/button/button_driver.c:68-136 | from count 0 with the long-press timer stopped, a trace with no press dispatches nothing, whatever the order of its releases and expiries |
| DebouncedMachine.LongPressPreemptsClicks | components/button/button_driver.c:97-103 | once the long-press timer fires, the interaction dispatches exactly one long press and no click, even if a release and a click-timer expiry follow |
| DebouncedMachine.AcceptedClick | components/button/button_driver.c:118-136 | an accepted press and release add one to the count, leave the click timer armed and the long-press timer stopped, and dispatch nothing |
| DebouncedMachine.SingleClickScenario | components/button/button_driver.c:68-136 | from idle: press, release, expiry give exactly one single click (nothing for a button without a callback) and leave the button idle |
| DebouncedMachine.DoubleClickScenario | components/button/button_driver.c:68-136 | from idle: two debounced clicks and then the expiry dispatch exactly one double click and no single click (nothing for a button without a callback) |
| DebouncedMachine.TripleClickScenario | components/button/button_driver.c:68-95 | three clicks before the expiry dispatch nothing |
| DebouncedMachine.BounceScenario | components/button/button_driver.c:118-136 | a press that bounces inside the window is counted once and gives one single click |
| DebouncedMachine.LongPressScenario | components/button/button_driver.c:97-136 | a press held until the long-press timer fires gives exactly one long press and no click after the release |
| DebouncedMachine.ShortTapScenario | components/button/button_driver.c:118-136 | a press whose release falls inside the debounce window is reported as a long press |
| DebouncedMachine.ClickThenHoldScenario | components/button/button_driver.c:82-131 | a click followed by a held press, pressed before the click timer expires, dispatches exactly a double click and then a long press, because the press branch leaves the click timer running |
| DebouncedMachine.NoCallbackNoDispatch | components/button/button_driver.c:68-95 | a button registered without a callback dispatches nothing over any trace without a long-press expiry: the click-timer handler only warns |
| ListDriver.Button.constructor | components/button/button_driver.c:166-185 | a new node has the given GPIO and callback, is linked in front of the old head, and has zero counts and both timers stopped |
| ListDriver.Driver.constructor | components/button/button_driver.c:33-34 | the static initial state: empty list, no queue, ISR service not installed |
| ListDriver.Driver.FindButton | components/button/button_driver.c:41-51 | returns NULL exactly when no node watches the GPIO; otherwise returns a node in the list that watches it, which is unique because GPIOs are distinct |
| ListDriver.Driver.Register | components/button/button_driver.c:158-185 | a GPIO already registered is rejected with a warning and no change; a failed allocation is rejected with a warning and no change; otherwise exactly one fresh zeroed node with the given GPIO and callback is prepended; existing nodes are unchanged and GPIOs stay pairwise distinct |
| ListDriver.Driver.Init | components/button/button_driver.c:143-156 | with a queue already there, nothing changes; otherwise a task is started, the queue is created if allocation succeeds, and the ISR service ends up installed, at most once ever |
| ListDriver.InitTwice | components/button/button_driver.c:143-156 | two initialisations start one task when the first creates the queue, and never install the ISR service twice |
| ListDriver.Driver.IsrHandler | components/button/button_driver.c:59-66 | the queue's new contents are `Offer` of the captured record; the send result is ignored |
| ListDriver.Driver.TaskStep | components/button/button_driver.c:105-139 | takes the front record. An unregistered GPIO changes no button. The matching button's new state is `OnRawEvent` of its old state with the decoded kind and `now`. Every other button is unchanged. An empty queue changes nothing |
| ListDriver.Driver.ClickTimerExpired | components/button/button_driver.c:68-95 | the button's new state and the appended dispatch or warning are those of `OnClickTimer` |
| ListDriver.Driver.LongPressTimerExpired | components/button/button_driver.c:97-103 | requires a callback (it is called unchecked); appends one long-press dispatch; the new state is `OnLongPressTimer` of the old |
| PlainMachine.OnRawEvent | main/button_driver.c:91-101 | every press adds one to the count (wrapping), records the press tick and arms the long-press timer; every release stops the long-press timer and arms the click timer; there is no debounce gate |
| PlainMachine.OnClickTimer | main/button_driver.c:56-68 | reports a single click exactly for count 1, a double click exactly for count 2, and nothing otherwise; the count ends at 0 |
| PlainMachine.OnLongPressTimer | main/button_driver.c:70-76 | count 0, click timer stopped, long-press timer expired |
| PlainMachine.EveryPressCounts | main/button_driver.c:91-96 | n press edges in a row raise the count by n modulo 256 and dispatch nothing: no edge is discarded |
| PlainMachine.NoPressNoDispatch | main/button_driver.c:56-101 | from count 0 with the long-press timer stopped, a trace with no press dispatches nothing |
| PlainMachine.LongPressPreemptsClicks | main/button_driver.c:70-76 | once the long-press timer fires, exactly one long press and no click are dispatched for the interaction |
| PlainMachine.SingleClickScenario | main/button_driver.c:56-101 | from idle: press, release, expiry give exactly one single click |
| PlainMachine.BouncedPressIsDoubleClick | main/button_driver.c:91-101 | a press that bounces before the release is reported as a double click |
| PlainMachine.LongPressScenario | main/button_driver.c:70-101 | a held press gives exactly one long press and no click after the release |
| ArrayDriver.Driver.constructor | main/button_driver.c:31-33 | every slot zeroed, no slot in use, no queue |
| ArrayDriver.Driver.FindButton | main/button_driver.c:35-45 | returns the lowest used slot whose GPIO matches, or none exactly when no used slot matches; a later slot for the same GPIO is never returned |
| ArrayDriver.Driver.Register | main/button_driver.c:116-142 | with all 10 slots used: a warning and no change. Otherwise slot `count` gets the GPIO, the callback and a zeroed state, `count` goes up by one, and the other slots are unchanged. The count never exceeds 10 |
| ArrayDriver.Driver.Init | main/button_driver.c:106-114 | with a queue already there, nothing changes; otherwise a task is started, the ISR service is installed, and the queue is created if allocation succeeds |
| ArrayDriver.Driver.IsrHandler | main/button_driver.c:47-54 | the queue's new contents are `Offer` of the captured record |
| ArrayDriver.Driver.TaskStep | main/button_driver.c:78-104 | takes the front record. An unregistered GPIO leaves every slot unchanged. Otherwise only the lowest matching slot changes, to `OnRawEvent` of its state |
| ArrayDriver.Driver.ClickTimerExpired | main/button_driver.c:56-68 | requires a callback when the count is 1 or 2 (it is called unchecked); only this slot changes, to `OnClickTimer` of its state, and the reported event is dispatched |
| ArrayDriver.Driver.LongPressTimerExpired | main/button_driver.c:70-76 | requires a callback; appends one long-press dispatch; only this slot changes, to `OnLongPressTimer` of its state |

## Left out

- Pin configuration and interrupt binding (`gpio_config`, `gpio_isr_handler_add`, `gpio_install_isr_service`, `gpio_get_level`) are ESP-IDF calls. The pin level is a parameter of `IsrHandler`. Installing the ISR service is recorded only as a counter.
- FreeRTOS task creation and the endless `for (;;)` loop of `button_task`: one call to `TaskStep` is one iteration. `xTaskGetTickCount` becomes the parameter `now`.
- `pdMS_TO_TICKS`: the debounce window is taken as 20 ticks, which is a 1 ms tick. At another `configTICK_RATE_HZ` the window is a different number of ticks.
- Timer periods and deadlines: `DOUBLE_CLICK_TIMEOUT` (100) and `LONG_PRESS_TIMEOUT` (500) do not appear, because a timer is only armed or not. Restarting a running timer replaces its deadline, and the model cannot show that. Each expiry is an explicit call. Failure of `xTimerCreate` is not modelled.
- Concurrency between the interrupt handler, the button task and the timer-service task: each handler is one atomic step. The data races on `click_count` are not modelled.
- `xQueueSendFromISR`'s task-woken argument, and the queue's internal ring buffer: the queue is a sequence.
- IsrHandler, TaskStep (both variants): require a created queue. When `xQueueCreate` fails, `Init` still installs the ISR service and starts the button task, and the code then passes a NULL handle to `xQueueSendFromISR` and `xQueueReceive`. FreeRTOS asserts or crashes there, and the model does not cover that path.
- DebouncedMachine.Run: needs a callback whenever the trace holds a long-press expiry. A button without a callback whose long-press timer fires makes the code call a NULL function pointer, and no trace lemma covers that.
- Allocation: `calloc` success is the parameter `allocOk` and `xQueueCreate` success the parameter `created`. When queue creation fails, the button task is still started, as in the code.
- Logging: warnings are a ghost log. The informational message on a successful registration is not recorded.
- Callbacks are identified by a number. A call is recorded in `dispatched`, and what the callback then does is not modelled.
- `gpio_num << 8` for a GPIO of 2^23 or more overflows a signed int in C. The model wraps it modulo 2^32.
- The timer ID that maps a timer back to its button is not modelled. The expiry methods take the button, or the slot index, directly.
- main/hello_world_main.c is example glue that registers two logging callbacks. It is not part of this model.
- components/button/button_driver.h has only declarations. Its event enum and callback shape are `ButtonTypes.ButtonEvent` and `ButtonTypes.Callback`.
