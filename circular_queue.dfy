/**
 * The fixed-capacity ring buffer of parking records shared by both
 * applications. `data` is the slot array, `front` the absolute slot of the
 * oldest record and `size` the number of records; the ghost `Contents` is
 * the queue's logical value, oldest record first.
 */
module CircularQueues {
  import opened Wrappers
  import opened Ring
  import opened Records

  /** The two exceptions the queue raises. */
  datatype QueueError = Overflow | Empty

  class CircularQueue {
    var capacity: nat
    var data: array<Option<Record>>
    var front: nat
    var size: nat
    ghost var Contents: seq<Record>

    /**
     * The object invariant: the capacity floor, one slot per unit of
     * capacity, `size` records, and the slots laid out as the window of
     * `Contents` starting at `front` (which also gives `front < capacity`
     * and `size <= capacity`).
     */
    ghost predicate Valid()
      reads this, data
    {
      && 4 <= capacity
      && data.Length == capacity
      && size == |Contents|
      && Layout(data[..], front, Contents)
    }

    constructor (requested: int)
      ensures Valid() && fresh(data)
      ensures capacity == Max(4, requested)
      ensures front == 0 && size == 0 && Contents == []
      ensures forall j :: 0 <= j < data.Length ==> data[j] == None
    {
      var slots := new Option<Record>[Max(4, requested)](_ => None);
      EmptyLayout(slots[..]);
      capacity := Max(4, requested);
      data := slots;
      front, size := 0, 0;
      Contents := [];
    }

    function IsFull(): (full: bool)
      requires Valid()
      reads this, data
      ensures full <==> |Contents| == capacity
    {
      size == capacity
    }

    function IsEmpty(): (empty: bool)
      requires Valid()
      reads this, data
      ensures empty <==> Contents == []
    {
      size == 0
    }

    /** Absolute slot of the newest record, or None when the queue is empty. */
    function Rear(): (r: Option<nat>)
      requires Valid()
      reads this, data
      ensures r.None? <==> Contents == []
      ensures r.Some? ==> r.value < capacity && data[r.value] == Some(Contents[|Contents| - 1])
    {
      if size == 0 then None
      else
        SlotIsMod(front, size - 1, capacity);
        Some((front + size - 1) % capacity)
    }

    /** Logical position of absolute slot `idx`, or None when `idx` is outside the window. */
    function WindowPosition(idx: int): (r: Option<nat>)
      requires Valid()
      reads this, data
      ensures r.Some? ==> r.value < size && Slot(front, r.value, capacity) == idx
      ensures r.None? <==> forall i :: 0 <= i < size ==> Slot(front, i, capacity) != idx
    {
      if 0 <= idx < capacity && Offset(front, idx, capacity) < size
      then Some(Offset(front, idx, capacity))
      else None
    }

    /**
     * The occupancy invariant read off the slots: slot `j` holds a record
     * exactly when it is `Slot(front, i, capacity)`, that is
     * `(front + i) % capacity`, for some `i < size`, and that slot holds the
     * `i`-th oldest record.
     */
    lemma SlotOccupied(j: nat)
      requires Valid() && j < capacity
      ensures data[j].Some? <==> exists i :: 0 <= i < size && Slot(front, i, capacity) == j
      ensures forall i :: 0 <= i < size ==> Slot(front, i, capacity) == (front + i) % capacity
      ensures forall i :: 0 <= i < size ==> data[(front + i) % capacity] == Some(Contents[i])
    {
      OccupiedExactlyInWindow(data[..], front, Contents, j);
      forall i | 0 <= i < size
        ensures Slot(front, i, capacity) == (front + i) % capacity
      {
        SlotIsMod(front, i, capacity);
      }
    }

    method Enqueue(item: Record) returns (r: Outcome<QueueError>)
      requires Valid()
      modifies this, data
      ensures Valid() && data == old(data)
      ensures capacity == old(capacity) && front == old(front)
      ensures r == if old(size) == old(capacity) then Fail(Overflow) else Pass
      ensures r.Fail? ==> size == old(size) && Contents == old(Contents) && data[..] == old(data[..])
      ensures r.Pass? ==> size == old(size) + 1 && Contents == old(Contents) + [item]
      ensures r.Pass? ==> data[..] == old(data[..])[Slot(front, old(size), capacity) := Some(item)]
    {
      if IsFull() {
        return Fail(Overflow);
      }
      ghost var slots := data[..];
      var idx := (front + size) % capacity;
      SlotIsMod(front, size, capacity);
      LayoutPush(slots, front, Contents, item);
      data[idx] := Some(item);
      assert data[..] == slots[Slot(front, size, capacity) := Some(item)];
      size := size + 1;
      Contents := Contents + [item];
      return Pass;
    }

    method Dequeue() returns (r: Result<Record, QueueError>)
      requires Valid()
      modifies this, data
      ensures Valid() && data == old(data) && capacity == old(capacity)
      ensures r == if old(size) == 0 then Err(Empty) else Ok(old(Contents)[0])
      ensures r.Err? ==> front == old(front) && size == old(size) && Contents == old(Contents)
      ensures r.Err? ==> data[..] == old(data[..])
      ensures r.Ok? ==> front == (old(front) + 1) % capacity && size == old(size) - 1
      ensures r.Ok? ==> Contents == old(Contents)[1..]
      ensures r.Ok? ==> data[..] == old(data[..])[old(front) := None]
    {
      if IsEmpty() {
        return Err(Empty);
      }
      ghost var slots, head := data[..], front;
      LayoutPop(slots, head, Contents);
      SlotIsMod(head, 1, capacity);
      var item := data[front];
      data[front] := None;
      assert data[..] == slots[head := None];
      front := (front + 1) % capacity;
      assert front == Slot(head, 1, capacity);
      size := size - 1;
      Contents := Contents[1..];
      return Ok(item.value);
    }

    /** The records in logical order, oldest first. */
    method ContentList() returns (out: seq<Record>)
      requires Valid()
      ensures out == Contents
    {
      out := [];
      for i := 0 to size
        invariant out == Contents[..i]
      {
        SlotIsMod(front, i, capacity);
        assert data[Slot(front, i, capacity)] == Some(Contents[i]);
        out := out + [data[(front + i) % capacity].value];
      }
    }

    /**
     * Absolute slot of the earliest-arrived record carrying `id`, scanning
     * the window from `front`; None when no record in the window has it.
     */
    method FindIndexById(id: string) returns (r: Option<nat>)
      requires Valid()
      ensures FirstMatch(Contents, id).None? ==> r == None
      ensures FirstMatch(Contents, id).Some? ==> r == Some(Slot(front, FirstMatch(Contents, id).value, capacity))
      ensures r.Some? ==> r.value < capacity && data[r.value].Some? && data[r.value].value.id == id
    {
      for i := 0 to size
        invariant forall k :: 0 <= k < i ==> Contents[k].id != id
      {
        var idx := (front + i) % capacity;
        SlotIsMod(front, i, capacity);
        assert idx == Slot(front, i, capacity);
        var item := data[idx];
        assert item == Some(Contents[i]);
        if item.Some? && item.value.id == id {
          FirstMatchIs(Contents, id, i);
          return Some(idx);
        }
      }
      assert FirstMatch(Contents, id) == None;
      return None;
    }

    /**
     * Logical position of absolute slot `idx`, found by scanning the window
     * from `front`; None when no position of the window maps to `idx`.
     */
    method RelativeIndex(idx: int) returns (rel: Option<nat>)
      requires Valid()
      ensures rel == WindowPosition(idx)
    {
      for i := 0 to size
        invariant forall k :: 0 <= k < i ==> Slot(front, k, capacity) != idx
      {
        SlotIsMod(front, i, capacity);
        if (front + i) % capacity == idx {
          OffsetOfSlot(front, i, capacity);
          return Some(i);
        }
      }
      return None;
    }

    /**
     * Replaces the storage by an empty array of the same capacity and
     * enqueues `items` in order, so that they occupy slots `0 .. |items|-1`.
     */
    method Rebuild(items: seq<Record>)
      requires Valid() && |items| <= capacity
      modifies this, data
      ensures Valid() && fresh(data) && capacity == old(capacity)
      ensures front == 0 && size == |items| && Contents == items
      ensures forall j :: 0 <= j < capacity ==> data[j] == if j < size then Some(Contents[j]) else None
    {
      data := new Option<Record>[capacity](_ => None);
      front, size := 0, 0;
      Contents := [];
      EmptyLayout(data[..]);
      for k := 0 to |items|
        invariant Valid() && fresh(data) && capacity == old(capacity) && front == 0
        invariant size == k && Contents == items[..k]
      {
        var r := Enqueue(items[k]);
      }
      assert Contents == items;
      LayoutFromZero(data[..], Contents);
    }

    /**
     * Removes the record at absolute slot `idx` and rebuilds the buffer
     * from slot 0; fails, changing nothing, when `idx` is not in the window.
     */
    method RemoveByIndex(idx: int) returns (ok: bool)
      requires Valid()
      modifies this, data
      ensures Valid() && capacity == old(capacity)
      ensures ok <==> old(WindowPosition(idx)).Some?
      ensures !ok ==> data == old(data) && data[..] == old(data[..])
      ensures !ok ==> front == old(front) && size == old(size) && Contents == old(Contents)
      ensures ok ==> fresh(data) && front == 0 && size == old(size) - 1
      ensures ok ==> Contents == DeleteAt(old(Contents), old(WindowPosition(idx)).value)
      ensures ok ==> forall j :: 0 <= j < capacity ==> data[j] == if j < size then Some(Contents[j]) else None
    {
      if size == 0 {
        return false;
      }
      var items := ContentList();
      var rel := RelativeIndex(idx);
      if rel.None? {
        return false;
      }
      var newItems := items[..rel.value] + items[rel.value + 1..];
      assert newItems == DeleteAt(items, rel.value);
      Rebuild(newItems);
      return true;
    }

    /**
     * Rebuilds the buffer at capacity `Max(4, requested)` from slot 0,
     * keeping the oldest records that fit and dropping the rest.
     */
    method ResizePreserve(requested: int)
      requires Valid()
      modifies this, data
      ensures Valid() && fresh(data)
      ensures capacity == Max(4, requested) && front == 0
      ensures Contents == old(Contents)[..Min(|old(Contents)|, capacity)]
      ensures |old(Contents)| <= capacity ==> Contents == old(Contents)
      ensures forall j :: 0 <= j < capacity ==> data[j] == if j < size then Some(Contents[j]) else None
    {
      var items := ContentList();
      capacity := Max(4, requested);
      data := new Option<Record>[capacity](_ => None);
      front, size := 0, 0;
      Contents := [];
      EmptyLayout(data[..]);
      var k := 0;
      while k < |items|
        invariant Valid() && fresh(data) && capacity == Max(4, requested) && front == 0
        invariant k <= |items| && k <= capacity
        invariant Contents == items[..k]
      {
        if IsFull() {
          break;
        }
        var r := Enqueue(items[k]);
        k := k + 1;
      }
      LayoutFromZero(data[..], Contents);
    }
  }
}
