/** The FIFO queue that carries frames to the recognition worker and results
    back to the widget (Python's `queue.Queue`), seen from one thread of
    control at a time. A blocking `get(timeout=...)` and a `get_nowait()`
    both give up exactly when the queue is empty, so both are `Get` here. */
module Queues {

  datatype Option<T> = None | Some(value: T)

  class Queue<T> {
    /** Items in arrival order; the head is the next one handed out. */
    var items: seq<T>
    /** Capacity; 0 means unbounded, as for `queue.Queue(maxsize=0)`. */
    const maxSize: nat

    predicate Valid()
      reads this
    {
      maxSize == 0 || |items| <= maxSize
    }

    constructor (maxSize: nat)
      ensures Valid()
      ensures this.maxSize == maxSize && items == []
    {
      this.maxSize := maxSize;
      items := [];
    }

    /** `full()`: only a bounded queue can be full. */
    predicate Full()
      reads this
    {
      0 < maxSize <= |items|
    }

    /** `empty()` */
    predicate Empty()
      reads this
    {
      |items| == 0
    }

    /** `put_nowait(x)`: appends `x`, or (when full) raises `queue.Full`,
        reported here as `ok == false`, and leaves the queue as it was. */
    method PutNowait(x: T) returns (ok: bool)
      requires Valid()
      modifies this
      ensures Valid()
      ensures ok <==> !old(Full())
      ensures items == if ok then old(items) + [x] else old(items)
    {
      ok := !Full();
      if ok {
        items := items + [x];
      }
    }

    /** `get(timeout=1)` and `get_nowait()`: removes and returns the head,
        or (when empty) raises `queue.Empty`, reported here as `None`. */
    method Get() returns (r: Option<T>)
      requires Valid()
      modifies this
      ensures Valid()
      ensures r.None? <==> old(items) == []
      ensures r.Some? ==> r.value == old(items)[0] && items == old(items)[1..]
      ensures r.None? ==> items == old(items)
    {
      if items == [] {
        r := None;
      } else {
        r := Some(items[0]);
        items := items[1..];
      }
    }
  }
}
