/**
 * The queue handling of the basic visualiser: it owns one queue and, to
 * resize or clear, builds a new queue and swaps it in. Widgets, dialogs and
 * drawing are not modelled.
 */
module BasicApps {
  import opened Wrappers
  import opened Ring
  import opened Records
  import opened CircularQueues

  class BasicApp {
    var queue: CircularQueue

    ghost predicate Valid()
      reads this, queue, queue.data
    {
      queue.Valid()
    }

    constructor ()
      ensures Valid() && fresh(queue) && fresh(queue.data)
      ensures queue.capacity == 8 && queue.Contents == []
    {
      queue := new CircularQueue(8);
    }

    /**
     * Builds a new queue of capacity `Max(4, val)`, enqueues the old records
     * oldest first until it is full, and installs it. The old queue object is
     * left as it was.
     */
    method ResizeCapacity(val: int)
      requires Valid()
      modifies this
      ensures Valid() && fresh(queue) && fresh(queue.data)
      ensures queue.capacity == Max(4, val) && queue.front == 0
      ensures queue.Contents == old(queue.Contents)[..Min(|old(queue.Contents)|, queue.capacity)]
      ensures |old(queue.Contents)| <= queue.capacity ==> queue.Contents == old(queue.Contents)
      ensures unchanged(old(queue)) && unchanged(old(queue.data))
    {
      var oldItems := queue.ContentList();
      var newq := new CircularQueue(val);
      var k := 0;
      while k < |oldItems|
        invariant newq.Valid() && fresh(newq) && fresh(newq.data)
        invariant newq.capacity == Max(4, val) && newq.front == 0
        invariant k <= |oldItems| && k <= newq.capacity
        invariant newq.Contents == oldItems[..k]
      {
        if newq.IsFull() {
          break;
        }
        var r := newq.Enqueue(oldItems[k]);
        k := k + 1;
      }
      queue := newq;
    }

    /** Replaces the queue by an empty one of the same capacity. */
    method ClearAll()
      requires Valid()
      modifies this
      ensures Valid() && fresh(queue) && fresh(queue.data)
      ensures queue.capacity == old(queue.capacity) && queue.front == 0 && queue.Contents == []
      ensures forall j :: 0 <= j < queue.data.Length ==> queue.data[j] == None
    {
      queue := new CircularQueue(queue.capacity);
    }
  }
}
