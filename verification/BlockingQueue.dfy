// The queue that loggers and workers share. Every locked region is one atomic
// operation; waiting is left to the caller, who tries again after being woken.
module BlockingQueueModel {
  import opened CircularQueueModel

  class BlockingQueue<T(0)> {
    const queue: CircularQueue<T>

    ghost predicate Valid()
      reads this, queue, queue.cells
    {
      queue.Valid() && queue.maxItems > 0
    }

    ghost function Contents(): seq<T>
      reads this, queue, queue.cells
    {
      queue.Contents()
    }

    constructor (maxItems: nat)
      ensures Valid() && fresh(queue) && fresh(queue.cells)
      ensures queue.Capacity() == maxItems && Contents() == [] && queue.overrunCounter == 0
      ensures queue.pushed == [] && queue.departed == []
    {
      queue := new CircularQueue(maxItems);
    }

    // The region a blocked producer enters each time it is woken: it pushes only
    // once there is room, so it never drops anything.
    method Enqueue(item: T) returns (admitted: bool)
      requires Valid()
      modifies queue, queue.cells
      ensures Valid() && queue.Capacity() == old(queue.Capacity()) && queue.cells == old(queue.cells)
      ensures admitted <==> |old(Contents())| < queue.Capacity()
      ensures Contents() == if admitted then old(Contents()) + [item] else old(Contents())
      ensures queue.pushed == if admitted then old(queue.pushed) + [item] else old(queue.pushed)
      ensures queue.departed == old(queue.departed) && queue.overrunCounter == old(queue.overrunCounter)
    {
      queue.SizeBound();
      var full := queue.Full();
      admitted := !full;
      if admitted {
        queue.PushBack(item);
      }
    }

    // Never waits; a full queue loses its oldest item.
    method EnqueueNowait(item: T)
      requires Valid()
      modifies queue, queue.cells
      ensures Valid() && queue.Capacity() == old(queue.Capacity()) && queue.cells == old(queue.cells)
      ensures |old(Contents())| <= queue.Capacity()
      ensures Contents() == Pushed(queue.Capacity(), old(Contents()), item)
      ensures queue.pushed == old(queue.pushed) + [item]
      ensures queue.departed == Departed(queue.Capacity(), old(Contents()), old(queue.departed), item)
    {
      queue.PushBack(item);
    }

    // The region a consumer is in when its wait ends, by an item or by time.
    method DequeueFor() returns (dequeued: bool, item: T)
      requires Valid()
      modifies queue, queue.cells
      ensures Valid() && queue.Capacity() == old(queue.Capacity()) && queue.cells == old(queue.cells)
      ensures dequeued <==> old(Contents()) != []
      ensures dequeued ==> [item] + Contents() == old(Contents())
      ensures !dequeued ==> Contents() == []
      ensures queue.departed == old(queue.departed) + if dequeued then [Popped(item)] else []
      ensures queue.pushed == old(queue.pushed) && queue.overrunCounter == old(queue.overrunCounter)
    {
      var empty := queue.Empty();
      dequeued := !empty;
      if dequeued {
        item := TakeFront();
      } else {
        item := *;
        assert queue.departed + [] == queue.departed;
      }
    }

    method TakeFront() returns (item: T)
      requires Valid() && Contents() != []
      modifies queue
      ensures Valid() && queue.Capacity() == old(queue.Capacity()) && queue.cells == old(queue.cells)
      ensures [item] + Contents() == old(Contents()) && queue.departed == old(queue.departed) + [Popped(item)]
      ensures queue.pushed == old(queue.pushed) && queue.overrunCounter == old(queue.overrunCounter)
    {
      ghost var items := queue.Contents();
      item := queue.Front();
      queue.PopFront();
      assert [item] + items[1..] == items;
    }

    method OverrunCounter() returns (n: nat)
      requires Valid()
      ensures n + |PoppedItems(queue.departed)| + |Contents()| == |queue.pushed|
    {
      queue.Conservation();
      n := queue.overrunCounter;
    }

    method Size() returns (n: nat)
      requires Valid()
      ensures n == |Contents()| && n <= queue.Capacity()
    {
      queue.SizeBound();
      n := queue.Size();
    }
  }
}
