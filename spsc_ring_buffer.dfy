/** `spsc_ring_buffer<T>`: the single-producer single-consumer bounded FIFO.
    The producer owns `tail`, the consumer owns `head`; both stay below the
    power-of-two storage size and one slot is reserved, so the usable
    capacity is the storage size minus one. The model is sequential: each
    operation runs to completion, and the acquire/release pairing that makes
    the cursors safe to share is not modelled. */
module Spsc {
  import opened Bits
  import opened Wrappers
  import opened Ring
  import opened PowerOfTwo

  /** `distance(tail, head)`: the cursor difference in `std::size_t`, where
      unsigned subtraction wraps. The `& static_cast<index_type>(-1)` that
      follows is the identity on 64-bit words, so it is not spelled out. The
      difference is NOT reduced by the mask. */
  function Distance(tail: nat, head: nat): (d: nat)
    requires tail < WORD && head < WORD
    ensures tail >= head ==> d == tail - head
    ensures tail < head ==> d == WORD - (head - tail)
  {
    (tail - head) % WORD
  }

  /** Predicate on the storage size that both cursors are reduced by. */
  predicate IsStorageSize(size: nat)
  {
    IsPowerOfTwo(size) && 2 <= size <= WORD / 2
  }

  lemma {:induction false} PowerOfTwoDivides(p: nat, q: nat)
    requires IsPowerOfTwo(p) && IsPowerOfTwo(q) && p <= q
    ensures q % p == 0
    decreases p
  {
    if p == 1 {
      ModOfDecomposition(q, 1, q, 0);
    } else {
      PowerOfTwoAbove(q, p);
      PowerOfTwoDivides(p / 2, q / 2);
      var k := (q / 2) / (p / 2);
      assert q / 2 == (p / 2) * k;
      ModOfDecomposition(q, p, k, 0);
    }
  }

  /** The number of slots walking forward from `head` to `tail` around a
      ring of `size` slots: the occupancy the model's contents are defined by. */
  function ForwardDistance(tail: nat, head: nat, size: nat): (d: nat)
    requires tail < size && head < size
    ensures d < size
    ensures (head + d) % size == tail
  {
    var d := if tail >= head then tail - head else tail + size - head;
    if tail >= head then
      ModOfDecomposition(tail, size, 0, tail);
      d
    else
      ModOfDecomposition(head + d, size, 1, tail);
      d
  }

  /** The distance reduced by the mask, `distance(tail, head) & mask_`: the
      occupancy test the full check evidently intends. */
  function MaskedDistance(tail: nat, head: nat, size: nat): (d: nat)
    requires IsStorageSize(size) && tail < size && head < size
    ensures d == ForwardDistance(tail, head, size)
  {
    MaskedDistanceCounts(tail, head, size);
    And(Distance(tail, head), size - 1)
  }

  lemma MaskedDistanceCounts(tail: nat, head: nat, size: nat)
    requires IsStorageSize(size) && tail < size && head < size
    ensures And(Distance(tail, head), size - 1) == ForwardDistance(tail, head, size)
  {
    AndLowMask(Distance(tail, head), size);
    if tail >= head {
      ModOfDecomposition(tail - head, size, 0, tail - head);
    } else {
      WrappedDistanceMod(tail, head, size);
    }
  }

  /** 2^64 is a multiple of the storage size, so reducing the wrapped word
      difference by the size gives the forward distance. */
  lemma WrappedDistanceMod(tail: nat, head: nat, size: nat)
    requires IsStorageSize(size) && tail < head < size
    ensures (WORD - (head - tail)) % size == tail + size - head
  {
    WordIsPowerOfTwo();
    PowerOfTwoDivides(size, WORD);
    var d := head - tail;
    ModWrapBack(WORD, size, d);
    assert (WORD - d) % size == size - d;
  }

  /** The storage size `round_up_to_power_of_two(capacity + 1)` chooses. */
  lemma StorageSizeFor(capacity: nat, size: nat)
    requires capacity < WORD / 2
    requires capacity + 1 < 2 ==> size == 2
    requires 2 <= capacity + 1 ==> IsPowerOfTwo(size) && size >= capacity + 1 && size / 2 < capacity + 1
    ensures IsStorageSize(size) && size >= capacity + 1
    ensures capacity >= 1 ==> size / 2 <= capacity
  {
    Pow2Word();
    Pow2IsPowerOfTwo(63);
    if capacity >= 1 {
      PowerOfTwoAbove(WORD / 2, size);
    }
  }

  /** The unmasked full test `distance(tail, head) == capacity()` fires only
      at tail == size - 1, head == 0. */
  lemma DistanceFullIff(tail: nat, head: nat, size: nat)
    requires IsStorageSize(size) && tail < size && head < size
    ensures Distance(tail, head) == size - 1 <==> tail == size - 1 && head == 0
  {
  }

  /** A wrapped-around full buffer (tail one behind head) holds `size - 1`
      elements, yet the unmasked distance does not report it as full. */
  lemma FullTestMissesWrap(tail: nat, head: nat, size: nat)
    requires IsStorageSize(size) && 0 < head < size && tail == head - 1
    ensures MaskedDistance(tail, head, size) == size - 1
    ensures Distance(tail, head) != size - 1
  {
  }

  /** Advancing the tail by `k` slots that were free adds `k` to the occupancy. */
  lemma AdvanceTail(tail: nat, head: nat, size: nat, k: nat)
    requires IsStorageSize(size) && tail < size && head < size
    requires ForwardDistance(tail, head, size) + k < size
    ensures ForwardDistance((tail + k) % size, head, size) == ForwardDistance(tail, head, size) + k
  {
    if tail + k < size {
      ModBelow(tail + k, size);
    } else {
      ModOfDecomposition(tail + k, size, 1, tail + k - size);
    }
  }

  lemma NextOfResidue(x: nat, r: nat, size: nat)
    requires size >= 1 && r == x % size
    ensures (r + 1) % size == (x + 1) % size
  {
    ModAddMod(x, 1, size);
  }

  /** Writing a run at the tail of a ring that has room for it appends the
      run to the window and moves the tail past it. */
  lemma AppendRun<T>(slots: seq<T>, head: nat, tail: nat, xs: seq<T>)
    requires IsStorageSize(|slots|) && head < |slots| && tail < |slots|
    requires ForwardDistance(tail, head, |slots|) + |xs| < |slots|
    ensures ForwardDistance((tail + |xs|) % |slots|, head, |slots|) == ForwardDistance(tail, head, |slots|) + |xs|
    ensures Window(WriteRun(slots, tail, xs), head, ForwardDistance(tail, head, |slots|) + |xs|)
         == Window(slots, head, ForwardDistance(tail, head, |slots|)) + xs
  {
    ModBelow(tail, |slots|);
    WriteRunAppend(slots, tail, head, ForwardDistance(tail, head, |slots|), xs);
    AdvanceTail(tail, head, |slots|, |xs|);
  }

  /** Advancing a cursor below `size` by one, modulo `size`. */
  lemma NextCursor(x: nat, size: nat)
    requires x < size
    ensures (x + 1) % size == if x + 1 == size then 0 else x + 1
  {
    if x + 1 == size {
      ModOfDecomposition(x + 1, size, 1, 0);
    } else {
      ModOfDecomposition(x + 1, size, 0, x + 1);
    }
  }

  class SpscRingBuffer<T(0)> {
    /** `storage_capacity_`: the ring size, a power of two. */
    const storageCapacity: nat
    /** `mask_` */
    const mask: nat
    /** The slots; `storage_` holds `storageCapacity` values of T. */
    const storage: array<T>
    /** Consumer cursor: next slot to pop. */
    var head: nat
    /** Producer cursor: next slot to push. */
    var tail: nat

    /** The fixed part: sizes and mask. */
    ghost predicate Sized()
    {
      && IsStorageSize(storageCapacity)
      && mask == storageCapacity - 1
      && storage.Length == storageCapacity
    }

    ghost predicate Valid()
      reads this
    {
      Sized() && head < storageCapacity && tail < storageCapacity
    }

    /** `capacity()`: the storage size minus the reserved slot. */
    function Capacity(): (c: nat)
      requires Sized()
      ensures c >= 1
    {
      storageCapacity - 1
    }

    /** The number of elements between `head` and `tail`. */
    function Occupancy(): (n: nat)
      reads this
      requires Valid()
      ensures n <= Capacity()
    {
      ForwardDistance(tail, head, storageCapacity)
    }

    /** The queued elements, oldest first. */
    ghost function Contents(): seq<T>
      reads this, storage
      requires Valid()
    {
      Window(storage[..], head, Occupancy())
    }

    /** `next(idx)`: `(idx + 1) & mask_`. */
    function Next(idx: nat): (r: nat)
      requires Sized() && idx < storageCapacity
      ensures r == (idx + 1) % storageCapacity && r < storageCapacity
    {
      AndLowMask(idx + 1, storageCapacity);
      And(idx + 1, mask)
    }

    /** `element_at(idx)`: the slot `idx & mask_` (as a slot index rather
        than a byte address). */
    function ElementAt(idx: nat): (slot: nat)
      requires Sized()
      ensures slot == idx % storageCapacity && slot < storage.Length
      ensures idx < storageCapacity ==> slot == idx
    {
      AndLowMask(idx, storageCapacity);
      ModBelow(idx, storageCapacity);
      And(idx, mask)
    }

    constructor (capacity: nat)
      requires capacity < WORD / 2
      ensures Valid() && fresh(storage)
      ensures IsPowerOfTwo(storageCapacity) && storageCapacity >= capacity + 1
      ensures capacity == 0 ==> storageCapacity == 2
      ensures capacity >= 1 ==> storageCapacity / 2 <= capacity
      ensures Capacity() >= capacity
      ensures head == 0 && tail == 0 && Contents() == []
      ensures Empty() && !Full()
    {
      var size := RoundUpToPowerOfTwo(capacity + 1);
      StorageSizeFor(capacity, size);
      storageCapacity := size;
      mask := size - 1;
      storage := new T[size];
      head, tail := 0, 0;
    }

    /** `try_push`: reports full exactly when `distance(tail, head)` equals
        `capacity()`, which happens only at tail == capacity(), head == 0.
        Below capacity the value is appended. At capacity with the cursors
        wrapped (head != 0) the push still succeeds, tail catches up with
        head, and the buffer reads as empty: every element is lost. */
    method TryPush(value: T) returns (ok: bool)
      requires Valid()
      modifies this`tail, storage
      ensures Valid() && head == old(head)
      ensures ok <==> !(old(tail) == Capacity() && old(head) == 0)
      ensures ok ==> tail == (old(tail) + 1) % storageCapacity
      ensures ok ==> storage[..] == old(storage[..])[old(tail) := value]
      ensures !ok ==> tail == old(tail) && storage[..] == old(storage[..])
      ensures old(Occupancy()) < Capacity() ==> ok && Occupancy() == old(Occupancy()) + 1
      ensures old(Occupancy()) < Capacity() ==> Contents() == old(Contents()) + [value]
      ensures old(Occupancy()) == Capacity() && old(head) != 0 ==> ok && Contents() == []
    {
      var t := tail;
      var h := head;
      DistanceFullIff(t, h, storageCapacity);
      if Distance(t, h) == Capacity() {
        return false;
      }
      ghost var before := storage[..];
      ghost var n := Occupancy();
      var slot := ElementAt(t);
      storage[slot] := value;
      tail := Next(t);
      ok := true;
      NextCursor(t, storageCapacity);
      if n < Capacity() {
        WindowPush(before, h, n, value);
      }
    }

    /** `try_push` with the full test the one-slot-reserved design calls
        for, `distance(tail, head) & mask_ == capacity()`: fails exactly when
        `capacity()` elements are queued, and otherwise appends. */
    method TryPushMasked(value: T) returns (ok: bool)
      requires Valid()
      modifies this`tail, storage
      ensures Valid() && head == old(head)
      ensures ok <==> old(Occupancy()) < Capacity()
      ensures ok ==> Occupancy() == old(Occupancy()) + 1 && Contents() == old(Contents()) + [value]
      ensures !ok ==> tail == old(tail) && storage[..] == old(storage[..])
    {
      var t := tail;
      var h := head;
      if MaskedDistance(t, h, storageCapacity) == Capacity() {
        return false;
      }
      ghost var before := storage[..];
      ghost var n := Occupancy();
      var slot := ElementAt(t);
      storage[slot] := value;
      tail := Next(t);
      ok := true;
      NextCursor(t, storageCapacity);
      WindowPush(before, h, n, value);
    }

    /** `try_pop`: empty exactly when head == tail; otherwise yields the
        oldest element and advances only `head`. */
    method TryPop() returns (r: Option<T>)
      requires Valid()
      modifies this`head
      ensures Valid() && tail == old(tail)
      ensures r.None? <==> old(head) == old(tail)
      ensures r.None? ==> head == old(head)
      ensures r.Some? ==> r.value == storage[old(head)] && head == (old(head) + 1) % storageCapacity
      ensures old(Contents()) == [] ==> r == None
      ensures old(Contents()) != [] ==> r == Some(old(Contents())[0]) && Contents() == old(Contents())[1..]
    {
      var h := head;
      var t := tail;
      if h == t {
        return None;
      }
      ghost var n := Occupancy();
      var slot := ElementAt(h);
      r := Some(storage[slot]);
      head := Next(h);
      NextCursor(h, storageCapacity);
      WindowPop(storage[..], h, n);
      WindowMod(storage[..], h + 1, n - 1);
    }

    /** `try_push_batch`: single pushes of `src[0]`, `src[1]`, ... until one
        fails; returns how many were pushed. As with `try_push`, only
        tail == capacity() with head == 0 stops it, so with head == 0 it
        pushes up to that point and otherwise it pushes everything. */
    method TryPushBatch(src: seq<T>, count: nat) returns (pushed: nat)
      requires Valid() && count <= |src|
      modifies this`tail, storage
      ensures Valid() && head == old(head)
      ensures pushed == if head == 0 then Min(count, Capacity() - old(tail)) else count
      ensures tail == (old(tail) + pushed) % storageCapacity
      ensures storage[..] == WriteRun(old(storage[..]), old(tail), src[..pushed])
      ensures old(Occupancy()) + count <= Capacity() ==> Contents() == old(Contents()) + src[..count]
    {
      pushed := 0;
      ModBelow(tail, storageCapacity);
      while pushed < count
        invariant Valid() && head == old(head)
        invariant pushed <= count
        invariant pushed <= (if head == 0 then Capacity() - old(tail) else count)
        invariant tail == (old(tail) + pushed) % storageCapacity
        invariant storage[..] == WriteRun(old(storage[..]), old(tail), src[..pushed])
        decreases count - pushed
      {
        ghost var t1 := old(tail) + pushed;
        ghost var t0 := tail;
        var ok := TryPush(src[pushed]);
        if !ok {
          break;
        }
        NextOfResidue(t1, t0, storageCapacity);
        assert pushed + 1 <= (if head == 0 then Capacity() - old(tail) else count) by {
          if head == 0 {
            ModBelow(t1, storageCapacity);
          }
        }
        WriteRunStep(old(storage[..]), old(tail), src, pushed);
        pushed := pushed + 1;
      }
      PushBatchCount(old(tail), head, pushed, count);
      if old(Occupancy()) + count <= Capacity() {
        assert pushed == count;
        AppendRun(old(storage[..]), head, old(tail), src[..count]);
      }
    }

    /** `try_pop_batch`: single pops into `dst[0]`, `dst[1]`, ... until the
        buffer is empty; returns how many were popped. */
    method TryPopBatch(dst: array<T>, count: nat) returns (popped: nat)
      requires Valid() && count <= dst.Length && dst != storage
      modifies this`head, dst
      ensures Valid() && tail == old(tail)
      ensures popped == Min(count, old(Occupancy()))
      ensures dst[..popped] == old(Contents())[..popped]
      ensures dst[popped..] == old(dst[popped..])
      ensures Contents() == old(Contents())[popped..]
    {
      popped := 0;
      while popped < count
        invariant Valid() && tail == old(tail)
        invariant popped <= count && popped <= old(Occupancy())
        invariant Occupancy() == old(Occupancy()) - popped
        invariant Contents() == old(Contents())[popped..]
        invariant dst[..popped] == old(Contents())[..popped]
        invariant dst[popped..] == old(dst[popped..])
        decreases count - popped
      {
        var r := TryPop();
        if r.None? {
          break;
        }
        dst[popped] := r.value;
        assert dst[..popped + 1] == dst[..popped] + [r.value];
        assert old(Contents())[..popped + 1] == old(Contents())[..popped] + [old(Contents())[popped]];
        assert dst[popped + 1..] == old(dst[popped..])[1..];
        popped := popped + 1;
      }
    }

    /** `try_acquire_producer_slot`: the slot at `tail`, or none when the
        (unmasked) full test fires; nothing changes. */
    function TryAcquireProducerSlot(): (slot: Option<nat>)
      reads this
      requires Valid()
      ensures slot.None? <==> tail == Capacity() && head == 0
      ensures slot.Some? ==> slot.value == tail && slot.value < storage.Length
    {
      DistanceFullIff(tail, head, storageCapacity);
      if Distance(tail, head) == Capacity() then None else Some(ElementAt(tail))
    }

    /** `commit_producer_slot`: publishes the slot at `tail` by advancing `tail`,
        without rechecking fullness. After a successful acquire the slot's
        current value is appended; on a buffer holding `capacity()` elements
        the commit wraps `tail` onto `head` and the buffer reads as empty. */
    method CommitProducerSlot()
      requires Valid()
      modifies this`tail
      ensures Valid() && head == old(head)
      ensures tail == (old(tail) + 1) % storageCapacity
      ensures old(Occupancy()) < Capacity() ==> Contents() == old(Contents()) + [storage[old(tail)]]
      ensures old(Occupancy()) == Capacity() ==> Occupancy() == 0
    {
      var t := tail;
      ghost var n := Occupancy();
      tail := Next(t);
      NextCursor(t, storageCapacity);
      if n < Capacity() {
        assert storage[..][t := storage[t]] == storage[..];
        WindowPush(storage[..], head, n, storage[t]);
      }
    }

    /** `try_acquire_consumer_slot`: the slot at `head`, or none when empty;
        nothing changes. */
    function TryAcquireConsumerSlot(): (slot: Option<nat>)
      reads this
      requires Valid()
      ensures slot.None? <==> Occupancy() == 0
      ensures slot.Some? ==> slot.value == head && slot.value < storage.Length
    {
      if head == tail then None else Some(ElementAt(head))
    }

    /** `release_consumer_slot`: retires the slot at `head` by advancing
        `head`, without rechecking emptiness. On a non-empty buffer the
        oldest element goes; on an empty one the buffer afterwards claims
        `capacity()` elements. */
    method ReleaseConsumerSlot()
      requires Valid()
      modifies this`head
      ensures Valid() && tail == old(tail)
      ensures head == (old(head) + 1) % storageCapacity
      ensures old(Occupancy()) > 0 ==> Contents() == old(Contents())[1..]
      ensures old(Occupancy()) == 0 ==> Occupancy() == Capacity()
    {
      var h := head;
      ghost var n := Occupancy();
      head := Next(h);
      NextCursor(h, storageCapacity);
      if n > 0 {
        WindowPop(storage[..], h, n);
        WindowMod(storage[..], h + 1, n - 1);
      }
    }

    /** `empty()`: the cursors coincide exactly when nothing is queued. */
    predicate Empty()
      reads this
      requires Valid()
      ensures Empty() <==> Occupancy() == 0
    {
      head == tail
    }

    /** `full()`: the same unmasked test as `try_push`, so it reports full
        only at tail == capacity(), head == 0, and misses a wrapped-around
        buffer that holds `capacity()` elements. */
    predicate Full()
      reads this
      requires Valid()
      ensures Full() <==> tail == Capacity() && head == 0
      ensures Full() ==> Occupancy() == Capacity()
      ensures Occupancy() == Capacity() && head != 0 ==> !Full()
    {
      DistanceFullIff(tail, head, storageCapacity);
      Distance(tail, head) == Capacity()
    }

    /** The stopping point of a batch push, from the loop's bounds. */
    lemma PushBatchCount(tail0: nat, h: nat, pushed: nat, count: nat)
      requires Valid() && tail0 < storageCapacity && h == head
      requires pushed <= count && pushed <= (if h == 0 then Capacity() - tail0 else count)
      requires pushed < count ==> tail == Capacity() && h == 0
      requires tail == (tail0 + pushed) % storageCapacity
      ensures pushed == if h == 0 then Min(count, Capacity() - tail0) else count
    {
      if pushed < count {
        ModOfDecomposition(tail0 + pushed, storageCapacity, 0, tail0 + pushed);
      }
    }
  }

  /** The basic test: a queue asked for 8 elements gets 16 slots, so 15
      usable; pushing 0..7 accepts all eight, popping returns them in order
      and leaves the queue empty. */
  method BasicPushPop() returns (capacity: nat, pushed: nat, values: seq<int>, emptyAfter: bool)
    ensures capacity == 15 && pushed == 8
    ensures values == [0, 1, 2, 3, 4, 5, 6, 7]
    ensures emptyAfter
  {
    var q := new SpscRingBuffer<int>(8);
    Pow2IsPowerOfTwo(4);
    LeastPowerOfTwoUnique(9, q.storageCapacity, 16);
    capacity := q.Capacity();
    pushed := 0;
    while pushed < 8
      invariant q.Valid() && q.storageCapacity == 16
      invariant pushed <= 8 && q.Occupancy() == pushed
      invariant q.Contents() == seq(pushed, k => k)
      decreases 8 - pushed
    {
      var ok := q.TryPush(pushed);
      if !ok {
        break;
      }
      pushed := pushed + 1;
    }
    ghost var all := q.Contents();
    values := [];
    var i := 0;
    while i < pushed
      invariant q.Valid() && 0 <= i <= pushed && q.Occupancy() == pushed - i
      invariant q.Contents() == all[i..] && values == all[..i]
      decreases pushed - i
    {
      var r := q.TryPop();
      values := values + [r.value];
      assert all[..i + 1] == all[..i] + [all[i]];
      i := i + 1;
    }
    emptyAfter := q.Empty();
  }

  /** A capacity-1 queue that has wrapped once: after push, pop, push it is
      full, yet a further push is accepted; tail lands on head, the queue
      reads as empty and the second element cannot be popped. */
  method WrappedOverfill() returns (first: bool, second: bool, third: bool, emptyAfter: bool, popAfter: Option<int>)
    ensures first && second && third
    ensures emptyAfter && popAfter == None
  {
    var q := new SpscRingBuffer<int>(1);
    first := q.TryPush(10);
    var _ := q.TryPop();
    second := q.TryPush(20);
    assert q.Occupancy() == q.Capacity() && q.head != 0;
    third := q.TryPush(30);
    emptyAfter := q.Empty();
    popAfter := q.TryPop();
  }
}
