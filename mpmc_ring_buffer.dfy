/** `mpmc_ring_buffer<T>`: Vyukov's bounded multi-producer multi-consumer
    queue. Every cell carries a sequence number that tells which lap of which
    cursor it is waiting for: a cell whose sequence equals the producer cursor
    is free for that push, one whose sequence is one past the consumer cursor
    holds the element for that pop. The cursors only grow; the cell a cursor
    uses is the cursor masked by capacity - 1.

    The model is sequential: each call runs alone, so the compare-and-swap on
    a cursor succeeds unless it fails spuriously, which `compare_exchange_weak`
    permits; how often it does so is a parameter of the call. */
module Mpmc {
  import opened Bits
  import opened Wrappers
  import opened Ring
  import opened PowerOfTwo

  /** `cell`: the sequence number and the element storage. */
  datatype Cell<T> = Cell(sequence: nat, value: T)

  /** The element column of a cell array. */
  function Values<T>(cells: seq<Cell<T>>): (vs: seq<T>)
    ensures |vs| == |cells|
    ensures forall i :: 0 <= i < |cells| ==> vs[i] == cells[i].value
  {
    seq(|cells|, i requires 0 <= i < |cells| => cells[i].value)
  }

  lemma ValuesUpdate<T>(cells: seq<Cell<T>>, p: nat, c: Cell<T>)
    requires p < |cells|
    ensures Values(cells[p := c]) == Values(cells)[p := c.value]
  {
  }

  /** The lap shift: cursor k + m uses the same cell as cursor k. */
  lemma ModLap(k: nat, m: nat)
    requires m >= 1
    ensures (k + m) % m == k % m
  {
    ModAddMod(k, m, m);
    ModOfDecomposition(k % m + m, m, 1, k % m);
  }

  /** The capacity `round_up_to_power_of_two(capacity)` chooses. */
  lemma CapacityFor(request: nat, capacity: nat)
    requires request <= WORD / 2
    requires request < 2 ==> capacity == 2
    requires 2 <= request ==> IsPowerOfTwo(capacity) && capacity >= request && capacity / 2 < request
    ensures IsPowerOfTwo(capacity) && 2 <= capacity <= WORD / 2 && capacity >= request
    ensures request >= 2 ==> capacity / 2 < request
  {
    Pow2Word();
    Pow2IsPowerOfTwo(63);
    if request >= 2 {
      PowerOfTwoAbove(WORD / 2, capacity);
    }
  }

  /** The sequence number of the cell cursor `k` uses. */
  ghost function SequenceOf<T>(cells: seq<Cell<T>>, k: nat): nat
    requires |cells| > 0
  {
    cells[k % |cells|].sequence
  }

  /** The lap invariant over a whole cell array: the cells of the queued
      cursors head .. tail - 1 say "full for the pop at k", those of the
      cursors tail .. head + capacity - 1 say "free for the push at k". */
  ghost predicate Laps<T>(cells: seq<Cell<T>>, head: nat, tail: nat)
    requires |cells| > 0
  {
    && (forall k: nat :: head <= k < tail ==> SequenceOf(cells, k) == k + 1)
    && (forall k: nat :: tail <= k < head + |cells| ==> SequenceOf(cells, k) == k)
  }

  /** Constructing cell i with sequence i makes every cell free for lap one. */
  lemma LapsInitial<T>(cells: seq<Cell<T>>)
    requires |cells| > 0 && forall i :: 0 <= i < |cells| ==> cells[i].sequence == i
    ensures Laps(cells, 0, 0)
  {
    forall k: nat | k < |cells| ensures SequenceOf(cells, k) == k {
      ModBelow(k, |cells|);
    }
  }

  /** With all cells queued, the cell of `tail` is the cell of `head`, still
      holding the element for the pop at head. */
  lemma LapsFull<T>(cells: seq<Cell<T>>, head: nat, tail: nat)
    requires |cells| >= 2 && Laps(cells, head, tail) && tail == head + |cells|
    ensures SequenceOf(cells, tail) == head + 1
  {
    assert SequenceOf(cells, head) == head + 1;
    ModLap(head, |cells|);
  }

  /** What a consumer at cursor `h` reads from its cell: sequence h + 1
      exactly when the queue is not empty, otherwise h. */
  lemma PopProbe<T>(cells: seq<Cell<T>>, h: nat, tail: nat)
    requires |cells| >= 2 && Laps(cells, h, tail) && h <= tail <= h + |cells|
    ensures h < tail ==> SequenceOf(cells, h) == h + 1
    ensures h == tail ==> SequenceOf(cells, h) == h
  {
  }

  /** Publishing the value pushed at cursor `tail` keeps the invariant and
      appends the value to the queued window. */
  lemma LapsPush<T>(cells: seq<Cell<T>>, head: nat, tail: nat, value: T)
    requires |cells| > 0 && Laps(cells, head, tail) && head <= tail < head + |cells|
    ensures var after := cells[tail % |cells| := Cell(tail + 1, value)];
      && Laps(after, head, tail + 1)
      && Window(Values(after), head, tail + 1 - head) == Window(Values(cells), head, tail - head) + [value]
  {
    var m := |cells|;
    var after := cells[tail % m := Cell(tail + 1, value)];
    forall k: nat | head <= k < tail + 1 ensures SequenceOf(after, k) == k + 1 {
      if k < tail {
        ModDistinct(k, tail - k, m);
        assert k + (tail - k) == tail;
        assert SequenceOf(cells, k) == k + 1;
      }
    }
    forall k: nat | tail + 1 <= k < head + m ensures SequenceOf(after, k) == k {
      ModDistinct(tail, k - tail, m);
      assert tail + (k - tail) == k;
      assert SequenceOf(cells, k) == k;
    }
    ValuesUpdate(cells, tail % m, Cell(tail + 1, value));
    assert head + (tail - head) == tail;
    WindowPush(Values(cells), head, tail - head, value);
  }

  /** Retiring the cell popped at cursor `head` for the next lap (sequence
      head + capacity) keeps the invariant and drops the oldest element. */
  lemma LapsPop<T>(cells: seq<Cell<T>>, head: nat, tail: nat)
    requires |cells| > 0 && Laps(cells, head, tail) && head < tail <= head + |cells|
    ensures var after := cells[head % |cells| := cells[head % |cells|].(sequence := head + |cells|)];
      && Laps(after, head + 1, tail)
      && Values(after) == Values(cells)
      && Window(Values(after), head + 1, tail - (head + 1)) == Window(Values(cells), head, tail - head)[1..]
      && Window(Values(cells), head, tail - head)[0] == cells[head % |cells|].value
  {
    var m := |cells|;
    var p := head % m;
    var after := cells[p := cells[p].(sequence := head + m)];
    forall k: nat | head + 1 <= k < tail ensures SequenceOf(after, k) == k + 1 {
      ModDistinct(head, k - head, m);
      assert head + (k - head) == k;
      assert SequenceOf(cells, k) == k + 1;
    }
    forall k: nat | tail <= k < head + 1 + m ensures SequenceOf(after, k) == k {
      if k < head + m {
        ModDistinct(head, k - head, m);
        assert head + (k - head) == k;
        assert SequenceOf(cells, k) == k;
      } else {
        ModLap(head, m);
      }
    }
    ValuesUpdate(cells, p, cells[p].(sequence := head + m));
    assert cells[p].(sequence := head + m).value == cells[p].value;
    assert Values(cells)[p := cells[p].value] == Values(cells);
    WindowPop(Values(cells), head, tail - head);
  }

  class MpmcRingBuffer<T(0)> {
    /** `capacity_`: the usable capacity, a power of two. */
    const capacity: nat
    /** `mask_` */
    const mask: nat
    /** `cells_` */
    const cells: array<Cell<T>>
    /** Consumer cursor: the number of pops so far. */
    var head: nat
    /** Producer cursor: the number of pushes so far. */
    var tail: nat

    ghost predicate Sized()
    {
      && IsPowerOfTwo(capacity) && 2 <= capacity <= WORD / 2
      && mask == capacity - 1
      && cells.Length == capacity
    }

    ghost predicate Valid()
      reads this, cells
    {
      && Sized()
      && head <= tail <= head + capacity
      && Laps(cells[..], head, tail)
    }

    /** The queued elements, oldest first. */
    ghost function Contents(): seq<T>
      reads this, cells
      requires Valid()
    {
      Window(Values(cells[..]), head, tail - head)
    }

    /** `capacity()` */
    function Capacity(): (c: nat)
      requires Sized()
      ensures IsPowerOfTwo(c) && c >= 2
    {
      capacity
    }

    /** `cells_[idx & mask_]`: the cell index a cursor uses. */
    function CellIndex(idx: nat): (i: nat)
      requires Sized()
      ensures i == idx % capacity && i < cells.Length
    {
      AndLowMask(idx, capacity);
      And(idx, mask)
    }

    /** Builds cell i with sequence i, so every cell is free for lap one. */
    constructor (request: nat)
      requires request <= WORD / 2
      ensures Valid() && fresh(cells)
      ensures capacity >= request && (request >= 2 ==> capacity / 2 < request)
      ensures request < 2 ==> capacity == 2
      ensures head == 0 && tail == 0 && Contents() == []
    {
      var c := RoundUpToPowerOfTwo(request);
      CapacityFor(request, c);
      capacity := c;
      mask := c - 1;
      var a := new Cell<T>[c];
      var i := 0;
      while i < c
        invariant 0 <= i <= c
        invariant forall j :: 0 <= j < i ==> a[j].sequence == j
      {
        a[i] := Cell(i, a[i].value);
        i := i + 1;
      }
      cells := a;
      head, tail := 0, 0;
      LapsInitial(a[..]);
    }

    /** `try_emplace` (and so `try_push`): claims the cell of `tail` when its
        sequence equals `tail`, stores the value and publishes it with
        sequence tail + 1; reports full when the sequence is behind. A
        spurious compare-and-swap failure reloads `tail` and retries. */
    method TryPush(value: T, spuriousFailures: nat) returns (ok: bool)
      requires Valid()
      modifies this`tail, cells
      ensures Valid() && head == old(head)
      ensures ok <==> old(tail - head) < capacity
      ensures ok ==> tail == old(tail) + 1 && Contents() == old(Contents()) + [value]
      ensures !ok ==> tail == old(tail) && cells[..] == old(cells[..])
    {
      var t := tail;
      var failures := spuriousFailures;
      while true
        invariant Valid() && t == tail && head == old(head) && tail == old(tail)
        invariant cells[..] == old(cells[..])
        decreases failures
      {
        var i := CellIndex(t);
        var sequence := cells[i].sequence;
        var diff: int := sequence as int - t as int;
        LapsTailCell(cells[..], head, t);
        if diff == 0 {
          if failures == 0 {
            Publish(value);
            return true;
          }
          failures := failures - 1;
        } else if diff < 0 {
          return false;
        } else {
          assert false;
        }
        t := tail;
      }
    }

    /** After a won compare-and-swap on `tail`: stores the value in the
        claimed cell and publishes it with sequence tail + 1. */
    method Publish(value: T)
      requires Valid() && tail < head + capacity
      modifies this`tail, cells
      ensures Valid() && head == old(head) && tail == old(tail) + 1
      ensures Contents() == old(Contents()) + [value]
    {
      var i := CellIndex(tail);
      ghost var before := cells[..];
      LapsPush(before, head, tail, value);
      cells[i] := Cell(tail + 1, value);
      assert cells[..] == before[i := Cell(tail + 1, value)];
      tail := tail + 1;
    }

    /** `try_pop`: claims the cell of `head` when its sequence is head + 1,
        moves the element out and retires the cell for the next lap with
        sequence head + capacity; reports empty when the sequence is behind.
        A spurious compare-and-swap failure reloads `head` and retries. */
    method TryPop(spuriousFailures: nat) returns (r: Option<T>)
      requires Valid()
      modifies this`head, cells
      ensures Valid() && tail == old(tail)
      ensures r.None? <==> old(tail) == old(head)
      ensures r.None? ==> head == old(head) && cells[..] == old(cells[..])
      ensures r.Some? ==> head == old(head) + 1
      ensures old(Contents()) != [] ==> r == Some(old(Contents())[0]) && Contents() == old(Contents())[1..]
    {
      var h := head;
      var failures := spuriousFailures;
      while true
        invariant Valid() && h == head && head == old(head) && tail == old(tail)
        invariant cells[..] == old(cells[..])
        decreases failures
      {
        var i := CellIndex(h);
        var sequence := cells[i].sequence;
        var diff: int := sequence as int - (h + 1) as int;
        PopProbe(cells[..], h, tail);
        if diff == 0 {
          if failures == 0 {
            var v := Consume();
            return Some(v);
          }
          failures := failures - 1;
        } else if diff < 0 {
          return None;
        } else {
          assert false;
        }
        h := head;
      }
    }

    /** After a won compare-and-swap on `head`: moves the element out of
        the claimed cell and retires the cell for the next lap. */
    method Consume() returns (v: T)
      requires Valid() && head < tail
      modifies this`head, cells
      ensures Valid() && tail == old(tail) && head == old(head) + 1
      ensures v == old(Contents())[0] && Contents() == old(Contents())[1..]
    {
      var i := CellIndex(head);
      var c := cells[i];
      ghost var before := cells[..];
      LapsPop(before, head, tail);
      cells[i] := c.(sequence := head + capacity);
      assert cells[..] == before[i := c.(sequence := head + capacity)];
      head := head + 1;
      v := c.value;
    }

    /** `empty()` */
    predicate Empty()
      reads this, cells
      requires Valid()
      ensures Empty() <==> Contents() == []
    {
      head == tail
    }

    /** `full()`: the cell of `tail` is behind `tail` exactly when it still
        holds the element of the previous lap, that is, when `capacity`
        elements are queued. */
    predicate Full()
      reads this, cells
      requires Valid()
      ensures Full() <==> |Contents()| == capacity
    {
      LapsTailCell(cells[..], head, tail);
      cells[CellIndex(tail)].sequence < tail
    }

    /** `approximate_size()`: `tail - head`, exact when nothing runs
        concurrently. */
    function ApproximateSize(): (n: nat)
      reads this, cells
      requires Valid()
      ensures n == |Contents()| && n <= capacity
    {
      tail - head
    }

    /** `try_push_batch`: single pushes of `src[0]`, `src[1]`, ... until one
        reports full. */
    method TryPushBatch(src: seq<T>, count: nat) returns (pushed: nat)
      requires Valid() && count <= |src|
      modifies this`tail, cells
      ensures Valid() && head == old(head)
      ensures pushed == Min(count, capacity - old(tail - head))
      ensures Contents() == old(Contents()) + src[..pushed]
    {
      pushed := 0;
      while pushed < count
        invariant Valid() && head == old(head)
        invariant pushed <= count && tail == old(tail) + pushed
        invariant Contents() == old(Contents()) + src[..pushed]
        decreases count - pushed
      {
        var ok := TryPush(src[pushed], 0);
        if !ok {
          break;
        }
        assert src[..pushed + 1] == src[..pushed] + [src[pushed]];
        pushed := pushed + 1;
      }
    }

    /** `try_pop_batch`: single pops into `dst[0]`, `dst[1]`, ... until one
        reports empty. */
    method TryPopBatch(dst: array<T>, count: nat) returns (popped: nat)
      requires Valid() && count <= dst.Length && dst as object != cells
      modifies this`head, cells, dst
      ensures Valid() && tail == old(tail)
      ensures popped == Min(count, old(tail - head))
      ensures dst[..popped] == old(Contents())[..popped]
      ensures dst[popped..] == old(dst[popped..])
      ensures Contents() == old(Contents())[popped..]
    {
      popped := 0;
      while popped < count
        invariant Valid() && tail == old(tail)
        invariant popped <= count && head == old(head) + popped
        invariant Contents() == old(Contents())[popped..]
        invariant dst[..popped] == old(Contents())[..popped]
        invariant dst[popped..] == old(dst[popped..])
        decreases count - popped
      {
        var r := TryPop(0);
        if r.None? {
          break;
        }
        dst[popped] := r.value;
        assert dst[..popped + 1] == dst[..popped] + [r.value];
        assert old(Contents())[..popped + 1] == old(Contents())[..popped] + [old(Contents())[popped]];
        assert dst[popped + 1..] == old(dst[popped..])[1..];
        popped := popped + 1;
      }
    }
  }

  /** The cell of `tail` is free for the push at tail unless the queue is
      full, in which case it still holds the element for the pop at head. */
  lemma LapsTailCell<T>(cells: seq<Cell<T>>, head: nat, tail: nat)
    requires |cells| >= 2 && Laps(cells, head, tail) && head <= tail <= head + |cells|
    ensures SequenceOf(cells, tail) == if tail == head + |cells| then head + 1 else tail
  {
    if tail == head + |cells| {
      LapsFull(cells, head, tail);
    }
  }

  /** Pushes 0, 1, ..., n - 1 one by one into an empty queue with room. */
  method PushCount(q: MpmcRingBuffer<int>, n: nat) returns (accepted: seq<bool>)
    requires q.Valid() && q.Contents() == [] && n <= q.capacity
    modifies q, q.cells
    ensures q.Valid()
    ensures q.Contents() == seq(n, k => k) && accepted == seq(n, k => true)
  {
    accepted := [];
    var i := 0;
    while i < n
      invariant q.Valid() && 0 <= i <= n
      invariant q.Contents() == seq(i, k => k) && accepted == seq(i, k => true)
    {
      var ok := q.TryPush(i, 0);
      assert seq(i + 1, k => k) == seq(i, k => k) + [i];
      accepted := accepted + [ok];
      i := i + 1;
    }
  }

  /** Pops until the queue is empty, collecting the values. */
  method PopAll(q: MpmcRingBuffer<int>) returns (values: seq<int>)
    requires q.Valid()
    modifies q, q.cells
    ensures q.Valid() && q.Contents() == [] && values == old(q.Contents())
  {
    values := [];
    ghost var all := q.Contents();
    var i := 0;
    while !q.Empty()
      invariant q.Valid() && 0 <= i <= |all|
      invariant q.Contents() == all[i..] && values == all[..i]
      decreases |all| - i
    {
      var r := q.TryPop(0);
      assert all[i..][1..] == all[i + 1..];
      assert all[..i + 1] == all[..i] + [r.value];
      values := values + [r.value];
      i := i + 1;
    }
  }

  /** Single-threaded use: a queue for 8 holds exactly 8; pushing 0..7
      succeeds, popping returns 0..7 in order and leaves it empty. */
  method SingleThreadPushPop() returns (capacity: nat, emptyBefore: bool, fullBefore: bool,
                                        accepted: seq<bool>, values: seq<int>, fullBetween: bool, emptyAfter: bool)
    ensures capacity == 8 && emptyBefore && !fullBefore
    ensures accepted == [true, true, true, true, true, true, true, true]
    ensures fullBetween
    ensures values == [0, 1, 2, 3, 4, 5, 6, 7]
    ensures emptyAfter
  {
    var q := new MpmcRingBuffer<int>(8);
    Pow2IsPowerOfTwo(3);
    LeastPowerOfTwoUnique(8, q.capacity, 8);
    capacity := q.Capacity();
    emptyBefore := q.Empty();
    fullBefore := q.Full();
    accepted := PushCount(q, 8);
    fullBetween := q.Full();
    values := PopAll(q);
    emptyAfter := q.Empty();
  }

  /** The batch interfaces: a queue for 16 takes a batch of 0..7 whole and
      gives it back in order. */
  method BatchInterfaces() returns (pushed: nat, popped: nat, values: seq<int>)
    ensures pushed == 8 && popped == 8
    ensures values == [0, 1, 2, 3, 4, 5, 6, 7]
  {
    var q := new MpmcRingBuffer<int>(16);
    Pow2IsPowerOfTwo(4);
    LeastPowerOfTwoUnique(16, q.capacity, 16);
    var src := [0, 1, 2, 3, 4, 5, 6, 7];
    pushed := q.TryPushBatch(src, 8);
    assert q.Contents() == src;
    var dst := new int[8];
    popped := q.TryPopBatch(dst, 8);
    assert dst[..popped] == src;
    values := dst[..];
  }
}
