/** The ring buffer as a bounded queue. */
module RingQueue {
  // dsaax/ringbuffer/main.cpp; a full queue drops its oldest item.

  class CircularBuffer<T> {
    const buf: array<T>
    const none: T
    var head: nat
    var tail: nat
    var full: bool

    ghost predicate Valid()
      reads this
    {
      head < buf.Length && tail < buf.Length && (full ==> head == tail)
    }

    /** The items in the buffer, oldest first. */
    ghost function Contents(): seq<T>
      reads this, buf
      requires Valid()
    {
      if !full && tail <= head then buf[tail..head] else buf[tail..] + buf[..head]
    }

    constructor (size: nat, none: T)
      requires size > 0
      ensures Valid() && Contents() == [] && fresh(buf) && buf.Length == size && this.none == none
    {
      buf := new T[size](_ => none);
      head, tail, full := 0, 0, false;
      this.none := none;
    }

    predicate Empty()
      reads this, buf
      requires Valid()
      ensures Empty() <==> Contents() == []
    {
      !full && head == tail
    }

    predicate Full()
      reads this, buf
      requires Valid()
      ensures Full() <==> |Contents()| == buf.Length
    {
      full
    }

    method Size() returns (size: nat)
      requires Valid()
      ensures size == |Contents()|
    {
      size := buf.Length;
      if !full {
        if head >= tail { size := head - tail; } else { size := buf.Length + head - tail; }
      }
    }

    method Reset()
      requires Valid()
      modifies this
      ensures Valid() && Contents() == []
    {
      head := tail;
      full := false;
    }

    method Put(item: T)
      requires Valid()
      modifies this, buf
      ensures Valid() && Contents() == Queued(old(Contents()), buf.Length, item)
    {
      ghost var was := Contents();
      Turn(head, buf.Length);
      Turn(tail, buf.Length);
      buf[head] := item;
      if full { tail := (tail + 1) % buf.Length; }
      head := (head + 1) % buf.Length;
      full := head == tail;
      assert Contents() == Queued(was, buf.Length, item);
    }

    method Get() returns (item: T)
      requires Valid()
      modifies this
      ensures Valid()
      ensures if old(Contents()) == [] then item == none && Contents() == []
              else item == old(Contents())[0] && Contents() == old(Contents())[1..]
    {
      if Empty() { return none; }
      Turn(tail, buf.Length);
      item := buf[tail];
      full := false;
      tail := (tail + 1) % buf.Length;
    }
  }

  lemma Turn(k: nat, n: nat)
    requires k < n
    ensures (k + 1) % n == if k + 1 == n then 0 else k + 1
  {
  }

  /** The queue after one more item; a full one drops its oldest. */
  function Queued<T>(q: seq<T>, capacity: nat, item: T): seq<T> {
    (if |q| == capacity && q != [] then q[1..] else q) + [item]
  }

  function AllQueued<T>(q: seq<T>, capacity: nat, items: seq<T>): seq<T>
    decreases |items|
  {
    if items == [] then q else AllQueued(Queued(q, capacity, items[0]), capacity, items[1..])
  }

  /** Whatever is put in, the buffer holds the newest items, as many as fit, in order. */
  lemma {:induction false} HoldsTheNewest<T>(q: seq<T>, capacity: nat, items: seq<T>)
    requires 0 < capacity && |q| <= capacity
    ensures var all := q + items;
      AllQueued(q, capacity, items) == if |all| <= capacity then all else all[|all| - capacity..]
    decreases |items|
  {
    var all := q + items;
    if items == [] {
      assert all == q;
    } else {
      var q' := Queued(q, capacity, items[0]);
      HoldsTheNewest(q', capacity, items[1..]);
      if |q| < capacity {
        assert q' + items[1..] == all;
      } else {
        assert q' + items[1..] == all[1..];
      }
    }
  }
}
