/**
  The interrupt-to-task channel: a FreeRTOS queue of 32-bit records created
  with length 16. The interrupt handler sends without blocking, and a send to
  a full queue fails and the record is lost; the button task takes records from the
  front.
*/
module EventChannel {
  import opened ButtonTypes
  import opened EdgeCapture

  /** The queue contents after a non-blocking send of `w` to a queue of `capacity`. */
  function Offer(items: seq<Word>, capacity: nat, w: Word): (r: seq<Word>)
    ensures |items| < capacity ==> r == items + [w]
    ensures |items| >= capacity ==> r == items
  {
    if |items| < capacity then items + [w] else items
  }

  /** The queue contents after sending each of `ws` in turn, with no receive in between. */
  function OfferAll(items: seq<Word>, capacity: nat, ws: seq<Word>): seq<Word>
    decreases |ws|
  {
    if ws == [] then items else OfferAll(Offer(items, capacity, ws[0]), capacity, ws[1..])
  }

  /**
    A burst of sends keeps everything that was queued, then the earliest
    arrivals that still fit: once the queue is full every later record is
    dropped, and nothing is lost when the burst fits.
  */
  lemma {:induction false} OfferAllKeepsEarliest(items: seq<Word>, capacity: nat, ws: seq<Word>)
    requires |items| <= capacity
    ensures var room := capacity - |items|;
      OfferAll(items, capacity, ws) == items + ws[..if |ws| < room then |ws| else room]
    decreases |ws|
  {
    if ws != [] {
      var next := Offer(items, capacity, ws[0]);
      OfferAllKeepsEarliest(next, capacity, ws[1..]);
      if |items| < capacity {
        var room := capacity - |items|;
        var k := if |ws| < room then |ws| else room;
        assert next == items + [ws[0]];
        assert ws[1..][..k - 1] == ws[1..k];
        assert [ws[0]] + ws[1..k] == ws[..k];
      } else {
        assert ws[..0] == [];
      }
    }
  }

  class EventQueue {
    const capacity: nat
    var items: seq<Word>

    ghost predicate Valid()
      reads this
    {
      |items| <= capacity
    }

    /** xQueueCreate(capacity, sizeof(uint32_t)) when it succeeds. */
    constructor (capacity: nat)
      ensures Valid() && this.capacity == capacity && items == []
    {
      this.capacity := capacity;
      items := [];
    }

    /** xQueueSendFromISR: appends when there is room, otherwise drops `w`. */
    method SendFromIsr(w: Word) returns (sent: bool)
      requires Valid()
      modifies this
      ensures Valid()
      ensures sent == (|old(items)| < capacity)
      ensures items == Offer(old(items), capacity, w)
    {
      sent := |items| < capacity;
      if sent {
        items := items + [w];
      }
    }

    /**
      xQueueReceive: the record at the front, if any. An empty queue is where
      the button task would block, so nothing is taken.
    */
    method Receive() returns (w: Option<Word>)
      requires Valid()
      modifies this
      ensures Valid()
      ensures old(items) == [] ==> w == None && items == []
      ensures old(items) != [] ==> w == Some(old(items)[0]) && items == old(items)[1..]
    {
      if items == [] {
        w := None;
      } else {
        w := Some(items[0]);
        items := items[1..];
      }
    }
  }
}
