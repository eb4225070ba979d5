/**
 * Clients of the queue that state, from its contracts alone, the FIFO
 * order of enqueue/dequeue and the slot layout in two examples
 * (wrap-around after a dequeue, and removal by id).
 */
module QueueScenarios {
  import opened Wrappers
  import opened Ring
  import opened Records
  import opened CircularQueues

  lemma PrefixGrows<T>(s: seq<T>, k: nat)
    requires k < |s|
    ensures s[..k + 1] == s[..k] + [s[k]]
  {
  }

  /**
   * A fresh queue of capacity `Max(4, requested)` after enqueueing every
   * record of `items` in order; those that find it full are rejected with
   * Overflow, so it holds the oldest records that fit.
   */
  method EnqueueAll(requested: int, items: seq<Record>) returns (q: CircularQueue)
    ensures q.Valid() && fresh(q) && fresh(q.data) && q.capacity == Max(4, requested)
    ensures q.Contents == items[..Min(|items|, q.capacity)]
  {
    q := new CircularQueue(requested);
    for k := 0 to |items|
      invariant q.Valid() && fresh(q) && fresh(q.data) && q.capacity == Max(4, requested)
      invariant q.Contents == items[..Min(k, q.capacity)]
    {
      var r := q.Enqueue(items[k]);
      if k < q.capacity {
        PrefixGrows(items, k);
      }
    }
  }

  /**
   * Dequeues `n` times, keeping what comes out (the dequeues past the end
   * fail with Empty): the oldest `n` records, in the order they went in.
   */
  method DequeueTimes(q: CircularQueue, n: nat) returns (out: seq<Record>)
    requires q.Valid()
    modifies q, q.data
    ensures out == old(q.Contents)[..Min(n, |old(q.Contents)|)]
  {
    ghost var c0 := q.Contents;
    out := [];
    for k := 0 to n
      invariant q.Valid() && q.data == old(q.data)
      invariant out == c0[..Min(k, |c0|)] && q.Contents == c0[Min(k, |c0|)..]
    {
      ghost var before := q.Contents;
      var r := q.Dequeue();
      if r.Ok? {
        assert k < |c0| && before == c0[k..] && r.value == c0[k];
        assert q.Contents == c0[k + 1..];
        PrefixGrows(c0, k);
        out := out + [r.value];
      } else {
        assert |c0| <= k;
      }
    }
  }

  /**
   * Enqueues every record of `items` into a fresh queue, then dequeues
   * `|items|` times: what comes out is the accepted records, in the order
   * they went in.
   */
  method FifoRoundTrip(requested: int, items: seq<Record>) returns (out: seq<Record>)
    ensures out == items[..Min(|items|, Max(4, requested))]
  {
    var q := EnqueueAll(requested, items);
    out := DequeueTimes(q, |items|);
  }

  lemma SlotsOfFour(s: seq<Option<Record>>, w: Option<Record>, x: Option<Record>, y: Option<Record>, z: Option<Record>)
    requires |s| == 4 && s[0] == w && s[1] == x && s[2] == y && s[3] == z
    ensures s == [w, x, y, z]
  {
  }

  /** A fresh capacity-4 queue after enqueueing a, b and c. */
  method ThreeParked(a: Record, b: Record, c: Record) returns (q: CircularQueue)
    ensures q.Valid() && fresh(q) && fresh(q.data)
    ensures q.capacity == 4 && q.front == 0 && q.Contents == [a, b, c]
  {
    q := new CircularQueue(4);
    var r := q.Enqueue(a);
    r := q.Enqueue(b);
    r := q.Enqueue(c);
  }

  /**
   * Capacity 4: enqueue a, b, c and dequeue (which yields a). The next
   * record goes to slot (1 + 2) % 4 == 3, not slot 0; only the one after
   * it wraps around to slot 0.
   */
  method WrapAroundScenario(a: Record, b: Record, c: Record, d: Record, e: Record)
    returns (first: Record, afterD: seq<Option<Record>>, afterE: seq<Option<Record>>)
    ensures first == a
    ensures afterD == [None, Some(b), Some(c), Some(d)]
    ensures afterE == [Some(e), Some(b), Some(c), Some(d)]
  {
    var q := ThreeParked(a, b, c);
    assert q.data[..] == [Some(a), Some(b), Some(c), None] by {
      SlotsOfFour(q.data[..], Some(a), Some(b), Some(c), None);
    }
    var x := q.Dequeue();
    first := x.value;
    assert q.front == 1 && q.size == 2;
    assert q.data[..] == [None, Some(b), Some(c), None];
    var r := q.Enqueue(d);
    assert Slot(1, 2, 4) == 3;
    afterD := q.data[..];
    r := q.Enqueue(e);
    assert Slot(1, 3, 4) == 0;
    afterE := q.data[..];
  }

  /** The search for b's id in the queue that ThreeParked builds. */
  method SearchSecond(a: Record, b: Record, c: Record) returns (q: CircularQueue, found: Option<nat>)
    requires a.id != b.id
    ensures q.Valid() && fresh(q) && fresh(q.data)
    ensures q.capacity == 4 && q.front == 0 && q.Contents == [a, b, c]
    ensures found == Some(1)
  {
    q := ThreeParked(a, b, c);
    FirstMatchIs(q.Contents, b.id, 1);
    found := q.FindIndexById(b.id);
  }

  /**
   * Capacity 4 holding a, b, c: the search for b's id finds slot 1, the
   * removal there succeeds, and a and c end up in slots 0 and 1.
   */
  method FindRemoveScenario(a: Record, b: Record, c: Record)
    returns (found: Option<nat>, removed: bool, slots: seq<Option<Record>>)
    requires a.id != b.id
    ensures found == Some(1) && removed
    ensures slots == [Some(a), Some(c), None, None]
  {
    var q;
    q, found := SearchSecond(a, b, c);
    assert q.WindowPosition(1) == Some(1);
    removed := q.RemoveByIndex(found.value);
    assert q.Contents == [a, c];
    slots := q.data[..];
    assert |slots| == 4;
    assert slots[0] == Some(a) && slots[1] == Some(c) && slots[2] == None && slots[3] == None;
    SlotsOfFour(slots, Some(a), Some(c), None, None);
  }
}
