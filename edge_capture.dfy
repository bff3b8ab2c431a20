/**
  Edge capture: the interrupt handler reads the pin level, turns it into a raw
  event and packs GPIO number and event kind into one 32-bit queue record; the
  task unpacks the record again. Both variants use the same code for this.

  The record is a uint32_t. Its bit operations are written as the arithmetic
  they amount to on 32-bit unsigned values: `x << 8` wraps modulo 2^32,
  `x >> 8` is division by 256, `x & 0xFF` is the remainder modulo 256, and `|`
  of a value whose low 8 bits are clear with a value below 256 is their sum.
*/
module EdgeCapture {
  import opened ButtonTypes

  /** A 32-bit unsigned queue record. */
  type Word = w: int | 0 <= w < 0x1_0000_0000

  /** `x << 8` on a uint32_t. */
  function Shl8(x: Word): (r: Word)
    ensures r % 0x100 == 0
  {
    (x * 0x100) % 0x1_0000_0000
  }

  /** `x >> 8` on a uint32_t. */
  function Shr8(x: Word): Word
  {
    x / 0x100
  }

  /** `x & 0xFF` on a uint32_t. */
  function Low8(x: Word): (r: Word)
    ensures r < 0x100
  {
    x % 0x100
  }

  /** `hi | lo` where the low 8 bits of `hi` are clear and `lo` fits in them. */
  function OrLow8(hi: Word, lo: Word): (r: Word)
    requires hi % 0x100 == 0 && lo < 0x100
    ensures Low8(r) == lo && Shr8(r) == hi / 0x100
  {
    hi + lo
  }

  /** The numeric value of a raw event (EVENT_PRESS = 0, EVENT_RELEASE = 1). */
  function RawCode(e: RawEvent): (c: Word)
    ensures c < 2
    ensures (c == 0) == (e == Press)
  {
    match e
    case Press => 0
    case Release => 1
  }

  /** Active-low mapping: level 0 is a press, every other level a release. */
  function LevelToRaw(level: int): (e: RawEvent)
    ensures e == Press <==> level == 0
    ensures e == Release <==> level != 0
  {
    if level == 0 then Press else Release
  }

  /** `(gpio_num << 8) | evt`, as the 32-bit word handed to the queue. */
  function Pack(gpio: Gpio, e: RawEvent): (w: Word)
    ensures Low8(w) == RawCode(e)
    ensures gpio < 0x100 ==> Unpack(w) == (gpio, RawCode(e))
  {
    OrLow8(Shl8(gpio % 0x1_0000_0000), RawCode(e))
  }

  /** `gpio = (data >> 8) & 0xFF` and `evt = data & 0xFF`. */
  function Unpack(w: Word): (r: (Gpio, Word))
    ensures r.0 < 0x100 && r.1 < 0x100
  {
    (Low8(Shr8(w)), Low8(w))
  }

  /**
    How the button task's `if (evt == EVENT_PRESS) … else if (evt == EVENT_RELEASE)`
    reads an unpacked event code: any other code takes neither branch.
  */
  function DecodeKind(code: Word): (k: Option<RawEvent>)
    ensures k == Some(Press) <==> code == 0
    ensures k == Some(Release) <==> code == 1
    ensures k == None <==> code != 0 && code != 1
  {
    if code == 0 then Some(Press) else if code == 1 then Some(Release) else None
  }

  /** The record the interrupt handler sends for an edge on `gpio` read at `level`. */
  function Capture(gpio: Gpio, level: int): Word
  {
    Pack(gpio, LevelToRaw(level))
  }

  /**
    What the button task recovers from a captured record: the original line and the
    raw event chosen by the level, whenever the line number fits in 8 bits.
  */
  lemma CaptureRoundTrip(gpio: Gpio, level: int)
    requires gpio < 0x100
    ensures Unpack(Capture(gpio, level)).0 == gpio
    ensures DecodeKind(Unpack(Capture(gpio, level)).1) == Some(if level == 0 then Press else Release)
  {
    var e := LevelToRaw(level);
    assert Unpack(Pack(gpio, e)) == (gpio, RawCode(e));
  }

  /** Shifting left by 8 keeps only the low 24 bits of the operand. */
  lemma Shl8KeepsLow24(g: Word)
    ensures Shl8(g) == (g % 0x100_0000) * 0x100
  {
    var q := g / 0x100_0000;
    var r := g % 0x100_0000;
    assert g * 0x100 == q * 0x1_0000_0000 + r * 0x100;
    assert 0 <= r * 0x100 < 0x1_0000_0000;
  }

  /** The low 8 bits of the low 24 bits are the low 8 bits. */
  lemma Low8OfLow24(g: nat)
    ensures (g % 0x1_0000_0000) % 0x100_0000 % 0x100 == g % 0x100
  {
    var q := g / 0x100;
    assert g == q * 0x100 + g % 0x100;
  }

  /** A line number of 256 or more comes back truncated to its low 8 bits. */
  lemma PackTruncatesGpio(gpio: Gpio, e: RawEvent)
    ensures Unpack(Pack(gpio, e)).0 == gpio % 0x100
  {
    var g := gpio % 0x1_0000_0000;
    var r := g % 0x100_0000;
    Shl8KeepsLow24(g);
    assert Shr8(OrLow8(Shl8(g), RawCode(e))) == (r * 0x100) / 0x100 == r;
    Low8OfLow24(gpio);
  }
}
