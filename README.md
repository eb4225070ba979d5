# Circular-queue car park, in Dafny

This project models the data structure at the heart of a small car-park
application: a fixed-capacity circular queue (ring buffer) of parking
records. Each record holds a car id and an entry time. The model also covers
the queue handling that the two applications do around it.

- `improved_app.py` holds the full `CircularQueue` class. It has enqueue
  (park), dequeue (exit), a read-out of the cars in arrival order, a search
  by car id, removal of one car from the middle of the queue, and resizing
  that keeps arrival order.
- `app.py` declares the class again in `app.py:13-47`, with only the
  constructor, `is_full`, `is_empty`, `enqueue`, `dequeue` and
  `content_list`. These behave the same as `improved_app.py:19-52`; the
  exception messages and the wording of `content_list` differ. One Dafny
  class, `CircularQueues.CircularQueue`, models both copies.
- In `app.py`, `BasicApp` resizes by building a new queue and swapping it in,
  and clears by replacing the queue (`BasicApps.BasicApp`).
- In `improved_app.py`, `ImprovedApp` removes a car by id by chaining the
  search and the removal, and clears after a confirmation
  (`ImprovedApps.ImprovedApp`).

Layout of the project:

- `wrappers.dfy`: `Option`, `Outcome` and `Result`. The two exceptions the
  queue raises, `OverflowError` and `IndexError`, become `Fail(Overflow)` and
  `Err(Empty)`.
- `ring.dfy`: ring index arithmetic on values.
  - `Slot(front, i, n)` is the queue's `(front + i) % n`, written without
    `%`; `SlotIsMod` proves the two are equal.
  - `Offset` is the inverse of `Slot`.
  - `Layout(slots, front, contents)` states which slots hold which record.
  - Lemmas show that appending at the rear, popping the front and rebuilding
    from slot 0 each keep the layout.
- `records.dfy`: the `Record` datatype (`id`, `entry`). It also defines the
  functions that the queue's contracts are written in: `DeleteAt` (the list
  slice `items[:rel] + items[rel+1:]`) and `FirstMatch` (the earliest logical
  position with a given id).
- `circular_queue.dfy`: the class. It has the fields `capacity`, `data` (an
  `array<Option<Record>>`), `front` and `size`, plus a ghost `Contents` that
  holds the records oldest first.
  - `Valid()` is the object invariant: `capacity >= 4`,
    `data.Length == capacity`, `size == |Contents|`, and
    `Layout(data[..], front, Contents)`.
  - `Layout` gives `front < capacity` and `size <= capacity`. It also says that
    a slot holds a record exactly when it lies in the window from `front`.
  - Every method keeps `Valid()` and states the new `Contents` in terms of the
    old one.
- `basic_app.dfy` and `improved_app.dfy`: the application-level queue
  handling.
- `scenarios.dfy`: clients of the queue that rely only on its contracts. They
  show FIFO order and two examples.

Two consequences of the code that are easy to get wrong:

- **Wrap-around.** With capacity 4, after enqueueing a, b and c and one
  dequeue, the next record goes to slot `(1 + 2) % 4 == 3`
  (`improved_app.py:35`). Only the record after it wraps round to slot 0.
  `QueueScenarios.WrapAroundScenario` proves this.
- **`front` on an empty queue.** `front` stays in `0 .. capacity-1` even when
  the queue is empty, and `Valid()` keeps it there at all times.

## Model

| member | source | states |
|---|---|---|
| `CircularQueues.CircularQueue.constructor` | improved_app.py:20-24 | capacity is `max(4, requested)`; every slot is empty; `front == 0`; the contents are empty; the invariant holds |
| `CircularQueues.CircularQueue.IsFull` | improved_app.py:26-27 | true exactly when the queue holds `capacity` records |
| `CircularQueues.CircularQueue.IsEmpty` | improved_app.py:29-30 | true exactly when the queue holds no records |
| `CircularQueues.CircularQueue.Enqueue` | improved_app.py:32-37 | on a full queue it fails with Overflow and changes nothing; otherwise it writes the item into slot `(front + size) % capacity` and touches no other slot; the contents become the old contents plus the item; `front` and `capacity` are kept |
| `CircularQueues.CircularQueue.Dequeue` | improved_app.py:39-46 | on an empty queue it fails with Empty and changes nothing; otherwise it returns the oldest record and empties slot `front`; `front` becomes `(front + 1) % capacity`; the contents become the tail |
| `CircularQueues.CircularQueue.ContentList` | improved_app.py:48-52 | returns exactly the `size` records, from front to rear, and changes nothing |
| `CircularQueues.CircularQueue.FindIndexById` | improved_app.py:54-60 | None when no record in the window has the id, which includes the empty queue; otherwise the absolute slot `(front + i) % capacity` of the earliest-arrived match `i`; that slot holds a record with the id |
| `CircularQueues.CircularQueue.RelativeIndex` | improved_app.py:67-74 | the scan for the relative position of absolute index `idx` finds the unique `i < size` with `(front + i) % capacity == idx`, or None when there is none |
| `CircularQueues.CircularQueue.WindowPosition` | improved_app.py:68-72 | the logical position that maps to an absolute index; None exactly when no position of the window maps to it |
| `CircularQueues.CircularQueue.Rebuild` | improved_app.py:76-81 | a fresh array of the same capacity is built with `front == 0`; the records sit in order in slots `0 .. n-1` and every other slot is empty |
| `CircularQueues.CircularQueue.RemoveByIndex` | improved_app.py:62-82 | it returns false and changes nothing when the queue is empty or `idx` is outside the window; on success the contents lose exactly the record at relative position `rel`, `size` drops by one, `front == 0`, the capacity is kept, and the survivors sit in slots `0 .. size-1` |
| `CircularQueues.CircularQueue.ResizePreserve` | improved_app.py:84-92 | capacity becomes `max(4, n)` and `front == 0`; the contents are the first `min(old size, new capacity)` old records in order, so they are all kept when they fit; they sit in slots `0 .. size-1` |
| `CircularQueues.CircularQueue.Rear` | improved_app.py:308 | None exactly when the queue is empty; otherwise `(front + size - 1) % capacity` is a valid slot that holds the newest record |
| `Ring.SlotIsMod` | improved_app.py:35 | the index helper `Slot` equals the queue's `(front + i) % capacity` |
| `Ring.Offset` | improved_app.py:70 | every absolute slot has a relative position `i < n` that maps back to it |
| `Ring.EmptyLayout` | improved_app.py:22-24 | an all-empty slot array with `front == 0` is a valid, empty queue layout |
| `CircularQueues.CircularQueue.SlotOccupied` | improved_app.py:35-44 | for a valid queue, slot `j` holds a record exactly when it is `(front + i) % capacity` for some `i < size`, and that slot holds the `i`-th oldest record |
| `Ring.OccupiedExactlyInWindow` | improved_app.py:35-44 | under the invariant, a slot holds a record exactly when it is `(front + i) % capacity` for some `i < size`; no two window positions share a slot |
| `Ring.LayoutPush` | improved_app.py:35-37 | writing an item into slot `(front + size) % capacity` of a non-full layout gives the layout of the old contents plus that item |
| `Ring.LayoutPop` | improved_app.py:42-45 | in a non-empty layout the front slot holds the oldest record; emptying it and advancing `front` gives the layout of the tail |
| `Ring.LayoutFromZero` | improved_app.py:77-81 | with `front == 0`, slot `j` holds the `j`-th record for `j < size` and is empty otherwise |
| `Records.DeleteAt` | improved_app.py:75 | the slice result is one shorter; elements before `rel` are kept in place and later ones move down by one |
| `Records.DeleteAtRemovesOne` | improved_app.py:75 | the slice removes exactly one occurrence of the element at `rel` and nothing else, as multisets |
| `Records.FirstMatch` | improved_app.py:55-60 | the earliest position whose record has the id: it matches, and no earlier record does; None exactly when no record has the id |
| `Records.FirstMatchIs` | improved_app.py:55-59 | a matching position with no earlier match is the one the search returns |
| `BasicApps.BasicApp.constructor` | app.py:53 | the application starts with an empty queue of capacity 8 |
| `BasicApps.BasicApp.ResizeCapacity` | app.py:150-156 | it installs a new queue of capacity `max(4, val)` with `front == 0`; the new contents are the first `min(old size, new capacity)` old records in order; the old queue object and its array are not modified |
| `BasicApps.BasicApp.ClearAll` | app.py:161 | it installs a new, empty queue of the same capacity with every slot empty |
| `ImprovedApps.ImprovedApp.constructor` | improved_app.py:100 | the application starts with an empty queue of capacity 8 |
| `ImprovedApps.ImprovedApp.RemoveById` | improved_app.py:268-286 | it removes the earliest-arrived car with the id; it returns false with nothing changed exactly when no parked car has the id; the "could not remove" branch cannot happen |
| `ImprovedApps.ImprovedApp.ClearAll` | improved_app.py:296-302 | without confirmation nothing changes; with confirmation a new, empty queue of the same capacity is installed |
| `QueueScenarios.EnqueueAll` | app.py:26-31 | enqueueing a sequence into a new queue keeps exactly the oldest `min(n, capacity)` records, in order |
| `QueueScenarios.DequeueTimes` | app.py:33-40 | dequeueing `n` times yields the oldest `min(n, size)` records in order |
| `QueueScenarios.FifoRoundTrip` | app.py:26-40 | records are enqueued into a new queue and then dequeued as many times; the accepted records, those that did not meet a full queue, come out in the order they went in |
| `QueueScenarios.WrapAroundScenario` | improved_app.py:32-46 | capacity 4: after enqueueing a, b and c and one dequeue (which returns a), the next record goes to slot 3 and the one after it wraps round to slot 0 |
| `QueueScenarios.FindRemoveScenario` | improved_app.py:54-82 | capacity 4 holding a, b and c: the search for b's id returns slot 1, removing it succeeds, and a and c end up in slots 0 and 1 |

## Left out

- The tkinter user interface is not modelled: widget construction, layout,
  event binding, canvas drawing with floating-point geometry, slot colouring,
  front/rear outlines and the highlight animation driven by timer callbacks.
- The clock is not modelled. `datetime.now()` timestamps, the duration
  arithmetic and the formatting are left out; a record's `entry` is an opaque
  integer that is carried through unchanged.
- Dialog prompts and message boxes are not modelled. This includes rejecting
  a blank car id before enqueueing and the "full", "empty" and "not found"
  notices. The clear-all confirmation is a `bool` parameter of
  `ImprovedApp.ClearAll`.
- `park_car` and `exit_car` in both applications, and `search_by_id` in
  `improved_app.py` (`app.py` has no search), are only wrappers around
  `Enqueue`, `Dequeue` and `FindIndexById` with those notices, so they are not
  modelled separately.
- `ImprovedApp.resize` (`improved_app.py:288-294`) only calls
  `resize_preserve` and redraws, so `ResizePreserve` covers it.
- Records have a single shape. The source stores untyped dicts, and `app.py`
  tests them with `isinstance(item, dict)`; `find_index_by_id` tests
  `if item`. Both tests always pass for the records that the applications
  store.
- The default argument `capacity=8` of the queue constructor is not modelled.
  Both applications pass 8 explicitly, and the Dafny constructor takes the
  requested capacity as an argument.
- `CircularQueue.Dequeue`: the source would return `None` if the front slot
  were empty. The invariant rules that case out, so the model returns the
  record itself.
- `CircularQueue.RelativeIndex` and `CircularQueue.Rebuild` are the relative
  index scan and the rebuild loop of `remove_by_index`, each split out as a
  method of its own. `resize_preserve` keeps its own loop with the `is_full`
  break.
