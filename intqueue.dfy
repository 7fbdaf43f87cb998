/** IntQueue.java: a FIFO of ints over a fixed array, with a read cursor
    `start` and a write cursor `end` and no wrap-around. */
module Queues {

  class IntQueue {
    const a: array<int>
    var start: int
    var end: int

    ghost predicate Valid()
      reads this
    {
      0 <= start <= end <= a.Length
    }

    /** The live elements, oldest first. */
    ghost function Contents(): seq<int>
      reads this, a
      requires Valid()
    {
      a[start..end]
    }

    /** Everything written since the last clear, including what was dequeued. */
    ghost function Written(): seq<int>
      reads this, a
      requires Valid()
    {
      a[..end]
    }

    constructor (buf: array<int>)
      ensures a == buf && start == 0 && end == 0
      ensures Valid() && Contents() == []
    {
      a := buf;
      start, end := 0, 0;
    }

    method Dequeue() returns (x: int)
      requires Valid() && start < end
      modifies this
      ensures Valid()
      ensures x == old(Contents())[0] && Contents() == old(Contents())[1..]
      ensures start == old(start) + 1 && end == old(end)
    {
      x := a[start];
      start := start + 1;
    }

    method Enqueue(x: int)
      requires Valid() && end < a.Length
      modifies this, a
      ensures Valid()
      ensures a[..] == old(a[..])[old(end) := x]
      ensures start == old(start) && end == old(end) + 1
      ensures Contents() == old(Contents()) + [x]
      ensures Written() == old(Written()) + [x]
    {
      a[end] := x;
      end := end + 1;
    }

    /** enqueue(x, y): x, then y. */
    method EnqueuePair(x: int, y: int)
      requires Valid() && end + 1 < a.Length
      modifies this, a
      ensures Valid()
      ensures a[..] == old(a[..])[old(end) := x][old(end) + 1 := y]
      ensures start == old(start) && end == old(end) + 2
      ensures Contents() == old(Contents()) + [x, y]
    {
      a[end] := x;
      end := end + 1;
      a[end] := y;
      end := end + 1;
    }

    method First() returns (x: int)
      requires Valid() && start < end
      ensures x == Contents()[0]
    {
      x := a[start];
    }

    method Last() returns (x: int)
      requires Valid() && start < end
      ensures x == Contents()[|Contents()| - 1]
    {
      x := a[end - 1];
    }

    /** Rewinds both cursors; the array keeps its contents. */
    method Clear()
      requires Valid()
      modifies this
      ensures Valid() && start == 0 && end == 0 && Contents() == []
    {
      start, end := 0, 0;
    }

    function Size(): (n: int)
      reads this, a
      requires Valid()
      ensures n == |Contents()|
    {
      end - start
    }
  }

  /** IntQueueTest.testEnqueue on a queue of capacity 5: elements leave in the
      order they came in. */
  method FifoOrder() returns (x: int, y: int, z: int, n: int)
    ensures x == 3 && y == 1 && z == 2 && n == 0
  {
    var buf := new int[5];
    var q := new IntQueue(buf);
    q.Enqueue(3);
    q.Enqueue(1);
    q.Enqueue(2);
    x := q.Dequeue();
    y := q.Dequeue();
    z := q.Dequeue();
    n := q.Size();
  }

  /** IntQueueTest.testFirstAndLastInt: first is the oldest live element and
      last the newest. */
  method FirstAndLast() returns (f: int, l: int, f2: int)
    ensures f == 1 && l == 3 && f2 == 2
  {
    var buf := new int[5];
    var q := new IntQueue(buf);
    q.Enqueue(1);
    q.Enqueue(2);
    q.Enqueue(3);
    f := q.First();
    l := q.Last();
    var _ := q.Dequeue();
    f2 := q.First();
  }
}
