/** Types and constants shared by both variants of the button driver. */
module ButtonTypes {

  /** The semantic events handed to the application callback (button_event_t). */
  datatype ButtonEvent = SingleClick | DoubleClick | LongPress

  /** The raw edge kinds produced by the interrupt handler (button_raw_event_t). */
  datatype RawEvent = Press | Release

  datatype Option<T> = None | Some(value: T)

  /** A GPIO line number (gpio_num_t); real pins are small non-negative numbers. */
  type Gpio = nat

  /** A FreeRTOS tick count (TickType_t, a 32-bit unsigned integer). */
  type Tick = t: int | 0 <= t < 0x1_0000_0000

  /** The per-button click counter (uint8_t). */
  type Uint8 = x: int | 0 <= x < 0x100

  /** The application callback: absent (NULL) or a handler identified by a number. */
  datatype Callback = NoCallback | Handler(id: nat)

  /** One invocation of an application callback, with the arguments it received. */
  datatype Dispatch = Dispatch(event: ButtonEvent, gpio: Gpio, handler: nat)

  /** The diagnostics the driver logs (ESP_LOGW / ESP_LOGE). */
  datatype Warning =
    | AlreadyRegistered(gpio: Gpio)
    | OutOfMemory
    | ClickCallbackNotSet
    | DoubleCallbackNotSet
    | MaxButtonsReached

  /** Debounce window, in ticks (DEBOUNCE_TIME_MS). */
  const DEBOUNCE_TICKS: nat := 20

  /** Length of the interrupt-to-task queue, in 32-bit records. */
  const QUEUE_LENGTH: nat := 16

  /** Size of the fixed registry of the array variant (MAX_BUTTONS). */
  const MAX_BUTTONS: nat := 10

  /** `now - since` in unsigned 32-bit tick arithmetic. */
  function Elapsed(now: Tick, since: Tick): (d: Tick)
    ensures since <= now ==> d == now - since
    ensures now < since ==> d == now + 0x1_0000_0000 - since
  {
    (now - since) % 0x1_0000_0000
  }

  /** `c++` on a uint8_t. */
  function Inc8(c: Uint8): (r: Uint8)
    ensures c < 0xFF ==> r == c + 1
    ensures c == 0xFF ==> r == 0
  {
    (c + 1) % 0x100
  }
}
