/**
 * The queue handling of the improved parking application that goes beyond
 * the queue's own operations: removing a car by id (a search followed by a
 * removal at the slot found) and clearing the lot after confirmation.
 * Widgets, dialogs, drawing and animation are not modelled; the user's
 * answers are parameters.
 */
module ImprovedApps {
  import opened Wrappers
  import opened Records
  import opened CircularQueues

  class ImprovedApp {
    var queue: CircularQueue

    ghost predicate Valid()
      reads this, queue, queue.data
    {
      queue.Valid()
    }

    constructor ()
      ensures Valid() && fresh(queue) && fresh(queue.data)
      ensures queue.capacity == 8 && queue.Contents == []
    {
      queue := new CircularQueue(8);
    }

    /**
     * Removes the earliest-arrived car carrying `id`. Returns false, changing
     * nothing, when no parked car has that id; the removal at the slot the
     * search returns never fails.
     */
    method RemoveById(id: string) returns (removed: bool)
      requires Valid()
      modifies queue, queue.data
      ensures Valid() && queue == old(queue) && queue.capacity == old(queue.capacity)
      ensures removed <==> FirstMatch(old(queue.Contents), id).Some?
      ensures !removed ==> queue.Contents == old(queue.Contents) && queue.front == old(queue.front)
      ensures !removed ==> queue.data == old(queue.data) && queue.data[..] == old(queue.data[..])
      ensures removed ==> queue.front == 0
      ensures removed ==> queue.Contents == DeleteAt(old(queue.Contents), FirstMatch(old(queue.Contents), id).value)
    {
      if queue.IsEmpty() {
        return false;
      }
      var idx := queue.FindIndexById(id);
      if idx.None? {
        return false;
      }
      removed := queue.RemoveByIndex(idx.value);
      assert removed;
    }

    /** Replaces the queue by an empty one of the same capacity when `confirmed`. */
    method ClearAll(confirmed: bool)
      requires Valid()
      modifies this
      ensures Valid() && queue.capacity == old(queue.capacity)
      ensures !confirmed ==> queue == old(queue) && queue.Contents == old(queue.Contents)
      ensures confirmed ==> fresh(queue) && fresh(queue.data) && queue.front == 0 && queue.Contents == []
    {
      if !confirmed {
        return;
      }
      queue := new CircularQueue(queue.capacity);
    }
  }
}
