/**
 * The slot layout of a ring buffer, on values. A ring of `n` slots whose
 * oldest element sits at absolute slot `front` keeps logical position `i`
 * at `(front + i) % n`; `Slot` is that index written without `%`, and
 * `Offset` is its inverse. `Layout` says which slots hold which element.
 */
module Ring {
  import opened Wrappers

  function Min(a: int, b: int): int { if a <= b then a else b }

  function Max(a: int, b: int): int { if a >= b then a else b }

  /** Absolute slot of logical position `i`. */
  function Slot(front: nat, i: nat, n: nat): (j: nat)
    requires front < n && i < n
    ensures j < n
  {
    if front + i < n then front + i else front + i - n
  }

  /** `Slot` is the queue's `(front + i) % n`. */
  lemma SlotIsMod(front: nat, i: nat, n: nat)
    requires front < n && i < n
    ensures Slot(front, i, n) == (front + i) % n
  {
  }

  /** Logical position of absolute slot `j`, counted from `front`. */
  function Offset(front: nat, j: nat, n: nat): (i: nat)
    requires front < n && j < n
    ensures i < n && Slot(front, i, n) == j
  {
    if front <= j then j - front else j + n - front
  }

  lemma OffsetOfSlot(front: nat, i: nat, n: nat)
    requires front < n && i < n
    ensures Offset(front, Slot(front, i, n), n) == i
  {
  }

  /**
   * `slots` holds `contents` in logical order from `front`, and every slot
   * outside that window is empty.
   */
  ghost predicate Layout<T>(slots: seq<Option<T>>, front: nat, contents: seq<T>)
  {
    && front < |slots|
    && |contents| <= |slots|
    && (forall i :: 0 <= i < |contents| ==> slots[Slot(front, i, |slots|)] == Some(contents[i]))
    && (forall j :: 0 <= j < |slots| && Offset(front, j, |slots|) >= |contents| ==> slots[j] == None)
  }

  /** An all-empty ring holds nothing. */
  lemma {:induction false} EmptyLayout<T>(slots: seq<Option<T>>)
    requires |slots| > 0 && forall j :: 0 <= j < |slots| ==> slots[j] == None
    ensures Layout(slots, 0, [])
  {
  }

  /**
   * The occupancy invariant in the queue's own terms: slot `j` is occupied
   * exactly when `j == (front + i) % n` for some `i < |contents|`, and no
   * two logical positions share a slot.
   */
  lemma {:induction false} OccupiedExactlyInWindow<T>(slots: seq<Option<T>>, front: nat, contents: seq<T>, j: nat)
    requires Layout(slots, front, contents) && j < |slots|
    ensures slots[j] != None <==> exists i :: 0 <= i < |contents| && Slot(front, i, |slots|) == j
    ensures forall i, k :: 0 <= i < k < |contents| ==> Slot(front, i, |slots|) != Slot(front, k, |slots|)
  {
    var n := |slots|;
    var i := Offset(front, j, n);
    if i < |contents| {
      assert slots[Slot(front, i, n)] == Some(contents[i]);
    } else {
      forall k | 0 <= k < |contents| ensures Slot(front, k, n) != j {
        OffsetOfSlot(front, k, n);
      }
    }
    forall i, k | 0 <= i < k < |contents| ensures Slot(front, i, n) != Slot(front, k, n) {
      OffsetOfSlot(front, i, n);
      OffsetOfSlot(front, k, n);
    }
  }

  /** Writing `x` into the first free slot after the window appends it. */
  lemma {:induction false} LayoutPush<T>(slots: seq<Option<T>>, front: nat, contents: seq<T>, x: T)
    requires Layout(slots, front, contents) && |contents| < |slots|
    ensures Layout(slots[Slot(front, |contents|, |slots|) := Some(x)], front, contents + [x])
  {
    var n := |slots|;
    var slots' := slots[Slot(front, |contents|, n) := Some(x)];
    var contents' := contents + [x];
    forall i | 0 <= i < |contents'| ensures slots'[Slot(front, i, n)] == Some(contents'[i]) {
      OffsetOfSlot(front, i, n);
      OffsetOfSlot(front, |contents|, n);
    }
    forall j | 0 <= j < n && Offset(front, j, n) >= |contents'| ensures slots'[j] == None {
      OffsetOfSlot(front, |contents|, n);
    }
  }

  /**
   * Clearing the front slot and moving `front` one slot on drops the
   * oldest element, which is the one the front slot held.
   */
  lemma {:induction false} LayoutPop<T>(slots: seq<Option<T>>, front: nat, contents: seq<T>)
    requires Layout(slots, front, contents) && contents != [] && 1 < |slots|
    ensures slots[front] == Some(contents[0])
    ensures Layout(slots[front := None], Slot(front, 1, |slots|), contents[1..])
  {
    var n := |slots|;
    assert slots[Slot(front, 0, n)] == Some(contents[0]);
    var slots', front', contents' := slots[front := None], Slot(front, 1, n), contents[1..];
    forall i | 0 <= i < |contents'| ensures slots'[Slot(front', i, n)] == Some(contents'[i]) {
      assert Slot(front', i, n) == Slot(front, i + 1, n);
      OffsetOfSlot(front, i + 1, n);
      assert slots[Slot(front, i + 1, n)] == Some(contents[i + 1]);
    }
    forall j | 0 <= j < n && Offset(front', j, n) >= |contents'| ensures slots'[j] == None {
      if j != front {
        assert Offset(front, j, n) == Offset(front', j, n) + 1;
      }
    }
  }

  /** With `front == 0` the window is the prefix `0 .. |contents|-1`. */
  lemma {:induction false} LayoutFromZero<T>(slots: seq<Option<T>>, contents: seq<T>)
    requires Layout(slots, 0, contents)
    ensures forall j :: 0 <= j < |slots| ==> slots[j] == if j < |contents| then Some(contents[j]) else None
  {
    forall j | 0 <= j < |slots|
      ensures slots[j] == if j < |contents| then Some(contents[j]) else None
    {
      if j < |contents| {
        assert Slot(0, j, |slots|) == j;
      } else {
        assert Offset(0, j, |slots|) == j;
      }
    }
  }
}
