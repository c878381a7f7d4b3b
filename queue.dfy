/** The request channel of `RequestHandlerService`: a bounded buffer
    (capacity 100 in the older revision, 20 in the newer) whose senders
    suspend while it is full. The worker takes one request at a time. */
module RequestQueue {
  import opened Wrappers

  /** `Channel<Request>(100)` of the older `RequestHandlerService`. */
  const OlderCapacity: nat := 100
  /** `Channel<Request>(20)` of the newer one. */
  const NewerCapacity: nat := 20

  class Channel<T> {
    const capacity: nat
    /** Requests accepted by the channel, oldest first. */
    var buffer: seq<T>
    /** Requests of senders suspended on a full buffer, in the order they
        arrived. */
    var waiting: seq<T>

    /** Senders wait only while the buffer is full. */
    predicate Valid()
      reads this
    {
      0 < capacity && |buffer| <= capacity && (|waiting| > 0 ==> |buffer| == capacity)
    }

    /** Everything sent and not yet received, in sending order. */
    function Contents(): seq<T>
      reads this
    {
      buffer + waiting
    }

    constructor (capacity: nat)
      requires 0 < capacity
      ensures Valid() && Contents() == [] && this.capacity == capacity
    {
      this.capacity := capacity;
      buffer := [];
      waiting := [];
    }

    /** `send`: accepted at once while there is room, otherwise the sender
        suspends behind the earlier ones. */
    method Send(x: T)
      requires Valid()
      modifies this
      ensures Valid() && Contents() == old(Contents()) + [x]
    {
      if |buffer| < capacity {
        buffer := buffer + [x];
      } else {
        waiting := waiting + [x];
      }
    }

    /** One turn of the worker's `for (request in channel)`: the oldest
        request, if any; the first suspended sender then gets its place. */
    method Receive() returns (r: Option<T>)
      requires Valid()
      modifies this
      ensures Valid()
      ensures old(Contents()) == [] ==> r.None? && Contents() == []
      ensures old(Contents()) != [] ==> r == Some(old(Contents())[0]) && Contents() == old(Contents())[1..]
    {
      if |buffer| == 0 {
        return None;
      }
      r := Some(buffer[0]);
      buffer := buffer[1..];
      if |waiting| > 0 {
        buffer := buffer + [waiting[0]];
        waiting := waiting[1..];
      }
    }
  }

  /** The worker's channel, empty at start-up. */
  method NewRequestChannel<T>(older: bool) returns (c: Channel<T>)
    ensures fresh(c) && c.Valid() && c.Contents() == []
    ensures c.capacity == if older then OlderCapacity else NewerCapacity
  {
    c := new Channel(if older then OlderCapacity else NewerCapacity);
  }
}
