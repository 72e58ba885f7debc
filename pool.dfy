/** `fixed_pool`: fixed-size blocks carved out of one allocation, the free
    ones threaded into an intrusive singly-linked list through their first
    word; and the `pool_allocator<T>` adaptor over it. Block i lives at
    address `storage + i * elementSize`; 0 is `nullptr`. The `next` word of
    block i is `next[i]`, a block index or -1 for `nullptr`. */
module Pools {
  import opened Bits
  import opened Wrappers

  /** `sizeof(node)`: one pointer. */
  const NodeSize: nat := 8

  /** Indices count - 1, count - 2, ..., 0: the order the constructor leaves
      the free list in. */
  function Descending(count: nat): (s: seq<nat>)
    ensures |s| == count
    ensures forall k :: 0 <= k < count ==> s[k] == count - 1 - k
  {
    seq(count, k requires 0 <= k < count => count - 1 - k)
  }

  /** No index occurs twice. */
  ghost predicate Distinct(s: seq<nat>)
  {
    forall i, j :: 0 <= i < j < |s| ==> s[i] != s[j]
  }

  /** The link stored in the k-th block of a free list: the index of the
      block after it, or -1 (`nullptr`) for the last. */
  function LinkAfter(free: seq<nat>, k: nat): int
  {
    if k + 1 < |free| then free[k + 1] else -1
  }

  /** Every index in `free` is a block, and each block's link is the next
      block of the list. */
  ghost predicate Linked(free: seq<nat>, links: seq<int>)
  {
    && (forall k :: 0 <= k < |free| ==> free[k] < |links|)
    && (forall k :: 0 <= k < |free| ==> links[free[k]] == LinkAfter(free, k))
  }

  /** Unlinking the front leaves a list whose front is the old front's link. */
  lemma LinkedPop(free: seq<nat>, links: seq<int>)
    requires Linked(free, links) && free != []
    ensures Linked(free[1..], links)
    ensures links[free[0]] == if |free| > 1 then free[1] as int else -1
  {
    var t := free[1..];
    forall k | 0 <= k < |t|
      ensures links[t[k]] == LinkAfter(t, k)
    {
      assert t[k] == free[k + 1];
      assert LinkAfter(free, k + 1) == LinkAfter(t, k);
    }
  }

  /** Linking a block that is not on the list in front of it. */
  lemma LinkedPush(free: seq<nat>, links: seq<int>, i: nat)
    requires Linked(free, links) && i < |links| && i !in free
    ensures Linked([i] + free, links[i := if free == [] then -1 else free[0] as int])
  {
    var s, l := [i] + free, links[i := if free == [] then -1 else free[0] as int];
    forall k | 0 <= k < |s|
      ensures l[s[k]] == LinkAfter(s, k)
    {
      if k > 0 {
        assert s[k] == free[k - 1];
        assert LinkAfter(s, k) == LinkAfter(free, k - 1);
      }
    }
  }

  /** The indices below n. */
  ghost function Below(n: nat): (r: set<nat>)
    ensures forall i: nat :: i in r <==> i < n
    ensures |r| == n
  {
    if n == 0 then {} else Below(n - 1) + {n - 1}
  }

  /** The indices that occur in s. */
  ghost function Elements(s: seq<nat>): (r: set<nat>)
    ensures forall x :: x in r <==> x in s
  {
    if s == [] then {} else {s[0]} + Elements(s[1..])
  }

  lemma {:induction false} DistinctCard(s: seq<nat>)
    requires Distinct(s)
    ensures |Elements(s)| == |s|
  {
    if s != [] {
      var t := s[1..];
      assert Distinct(t) by {
        forall i, j | 0 <= i < j < |t| ensures t[i] != t[j] {
          assert t[i] == s[i + 1] && t[j] == s[j + 1];
        }
      }
      DistinctCard(t);
      assert s[0] !in t by {
        forall i | 0 <= i < |t| ensures t[i] != s[0] {
          assert t[i] == s[i + 1];
        }
      }
      assert Elements(s) == {s[0]} + Elements(t);
    }
  }

  /** The indices below n that a list of distinct indices below n leaves
      out number n minus its length. */
  lemma LiveCount(free: seq<nat>, n: nat)
    requires Distinct(free) && forall k :: 0 <= k < |free| ==> free[k] < n
    ensures |set i | 0 <= i < n && i !in free| + |free| == n
  {
    var fs := Elements(free);
    DistinctCard(free);
    var live := set i | 0 <= i < n && i !in free;
    assert live == Below(n) - fs;
    assert Below(n) == live + fs;
  }

  class FixedPool {
    /** `element_size_`: at least a node, so a free block can hold its link. */
    const elementSize: nat
    /** `element_count_` */
    const elementCount: nat
    /** `storage_`: the base address, 0 for an empty pool. */
    const storage: nat
    /** The `next` word of each block. */
    const next: array<int>
    /** `free_list_`: the first free block, -1 for `nullptr`. */
    var head: int
    /** The free list, front first, as block indices. */
    ghost var free: seq<nat>

    /** The fixed part: block size and base address. */
    ghost predicate Layout()
    {
      elementSize >= NodeSize && (elementCount > 0 ==> storage != 0)
    }

    /** `free` is exactly the chain from `head` through `next`, without
        repetition and within the pool. */
    ghost predicate Valid()
      reads this, next
    {
      && Layout()
      && next.Length == elementCount
      && Distinct(free)
      && head == (if free == [] then -1 else free[0] as int)
      && Linked(free, next[..])
    }

    /** The address of block i. */
    function BlockAddress(i: nat): (a: nat)
      requires Layout() && i < elementCount
      ensures a >= storage && a != 0
    {
      storage + i * elementSize
    }

    /** Blocks with different indices have different addresses. */
    lemma BlockAddressInjective(i: nat, j: nat)
      requires Layout() && i < elementCount && j < elementCount && i != j
      ensures BlockAddress(i) != BlockAddress(j)
    {
      if i < j {
        assert j * elementSize == i * elementSize + (j - i) * elementSize;
        MulAtLeast(elementSize, j - i);
      } else {
        assert i * elementSize == j * elementSize + (i - j) * elementSize;
        MulAtLeast(elementSize, i - j);
      }
    }

    /** The blocks currently handed out. */
    ghost function Live(): set<nat>
      reads this
    {
      set i | 0 <= i < elementCount && i !in free
    }

    /** `fixed_pool(element_size, element_count)`: `block` is the address
        `::operator new` returned for the storage. Pushes the blocks 0, 1,
        ..., count - 1 onto the free list in turn, so the list is every block
        once, highest first, each linking to the one below. */
    constructor (size: nat, count: nat, block: nat)
      requires count > 0 ==> block != 0
      ensures Valid() && fresh(next)
      ensures elementSize == if size < NodeSize then NodeSize else size
      ensures elementCount == count && (count == 0 ==> storage == 0) && (count > 0 ==> storage == block)
      ensures free == Descending(count) && Live() == {}
      ensures head == count - 1
      ensures forall i :: 0 <= i < count ==> next[i] == i - 1
    {
      elementSize := if size < NodeSize then NodeSize else size;
      elementCount := count;
      if count == 0 {
        storage := 0;
        next := new int[0];
        head := -1;
        free := [];
      } else {
        storage := block;
        var links := new int[count];
        var h: int := -1;
        ghost var f: seq<nat> := [];
        var i := 0;
        while i < count
          invariant 0 <= i <= count
          invariant f == Descending(i) && h == i - 1
          invariant forall j :: 0 <= j < i ==> links[j] == j - 1
        {
          links[i] := h;
          h := i;
          f := [i] + f;
          i := i + 1;
        }
        next := links;
        head := h;
        free := f;
      }
      new;
      DescendingChain(count);
      forall i | 0 <= i < count ensures i in free {
        assert free[count - 1 - i] == i;
      }
    }

    /** `allocate()`: `nullptr` (0) on an empty free list; otherwise pops
        the front block and returns its address. The block was free and is
        now live. */
    method Allocate() returns (p: nat)
      requires Valid()
      modifies this`head, this`free
      ensures Valid()
      ensures p == 0 <==> old(free) == []
      ensures p == 0 ==> free == old(free) && head == old(head)
      ensures p != 0 ==> p == BlockAddress(old(free)[0]) && free == old(free)[1..]
      ensures p != 0 ==> Live() == old(Live()) + {old(free)[0]} && old(free)[0] !in old(Live())
    {
      if head == -1 {
        return 0;
      }
      LinkedPop(free, next[..]);
      var n := head as nat;
      head := next[n];
      free := free[1..];
      p := BlockAddress(n);
      assert n !in free;
      assert Live() == old(Live()) + {n};
    }

    /** `deallocate(p)`: ignores `nullptr`; otherwise pushes the block onto
        the front of the free list, so the next `allocate` returns it. The
        caller hands back a live block of this pool. */
    method Deallocate(p: nat)
      requires Valid()
      requires p != 0 ==> exists i :: 0 <= i < elementCount && i in Live() && p == BlockAddress(i)
      modifies this`head, this`free, next
      ensures Valid()
      ensures p == 0 ==> free == old(free) && head == old(head) && next[..] == old(next[..])
      ensures p != 0 ==> exists i ::
        && 0 <= i < elementCount && p == BlockAddress(i) && free == [i] + old(free) && head == i
        && i in old(Live()) && Live() == old(Live()) - {i}
        && next[..] == old(next[..])[i := old(head)]
    {
      if p == 0 {
        return;
      }
      ghost var j :| 0 <= j < elementCount && j in Live() && p == BlockAddress(j);
      var i := BlockIndex(p);
      if i != j {
        BlockAddressInjective(i, j);
      }
      LinkedPush(free, next[..], i);
      next[i] := head;
      assert next[..] == old(next[..])[i := old(head)];
      head := i;
      free := [i] + free;
      assert Live() == old(Live()) - {i};
    }

    /** The block index of a block address: `(p - storage_) / element_size_`. */
    function BlockIndex(p: nat): (i: nat)
      requires Layout() && exists i :: 0 <= i < elementCount && p == BlockAddress(i)
      ensures i < elementCount && p == BlockAddress(i)
    {
      var j :| 0 <= j < elementCount && p == BlockAddress(j);
      ModOfDecomposition(p - storage, elementSize, j, 0);
      (p - storage) / elementSize
    }

    /** `capacity()`: every block is either free or live. */
    function Capacity(): (c: nat)
      reads this, next
      requires Valid()
      ensures c == |free| + |Live()|
    {
      LiveCount(free, elementCount);
      elementCount
    }

    /** The constructor's list satisfies the chain invariant. */
    lemma DescendingChain(count: nat)
      requires elementSize >= NodeSize && next.Length == elementCount == count
      requires (count > 0 ==> storage != 0) && free == Descending(count) && head == count - 1
      requires forall i :: 0 <= i < count ==> next[i] == i - 1
      ensures Valid()
    {
      forall k | 0 <= k < |free|
        ensures next[free[k]] == LinkAfter(free, k)
      {
      }
    }
  }

  /** `pool_allocator<T>` */
  class PoolAllocator {
    const pool: FixedPool

    constructor (p: FixedPool)
      ensures pool == p
    {
      pool := p;
    }

    /** The rebinding copy `pool_allocator<T>(const pool_allocator<U>&)`. */
    constructor Rebind(other: PoolAllocator)
      ensures pool == other.pool && Equals(other)
    {
      pool := other.pool;
    }

    /** `allocate(n)`: only single objects; `None` stands for the
        `std::bad_alloc` thrown for n != 1 or an exhausted pool. */
    method Allocate(n: nat) returns (p: Option<nat>)
      requires pool.Valid()
      modifies pool`head, pool`free
      ensures pool.Valid()
      ensures n != 1 ==> p.None? && pool.free == old(pool.free)
      ensures n == 1 ==> (p.None? <==> old(pool.free) == [])
      ensures p.None? ==> pool.free == old(pool.free) && pool.head == old(pool.head)
      ensures p.Some? ==> p.value == pool.BlockAddress(old(pool.free)[0]) && pool.free == old(pool.free)[1..]
      ensures p.Some? ==> pool.Live() == old(pool.Live()) + {old(pool.free)[0]} && old(pool.free)[0] !in old(pool.Live())
    {
      if n != 1 {
        return None;
      }
      var a := pool.Allocate();
      if a == 0 {
        return None;
      }
      return Some(a);
    }

    /** `deallocate(p, n)`: forwards to the pool. */
    method Deallocate(p: nat, n: nat)
      requires pool.Valid()
      requires p != 0 ==> exists i :: 0 <= i < pool.elementCount && i in pool.Live() && p == pool.BlockAddress(i)
      modifies pool`head, pool`free, pool.next
      ensures pool.Valid()
      ensures p == 0 ==> pool.free == old(pool.free) && pool.head == old(pool.head) && pool.next[..] == old(pool.next[..])
      ensures p != 0 ==> exists i ::
        && 0 <= i < pool.elementCount && p == pool.BlockAddress(i)
        && pool.free == [i] + old(pool.free) && pool.head == i
        && i in old(pool.Live()) && pool.Live() == old(pool.Live()) - {i}
        && pool.next[..] == old(pool.next[..])[i := old(pool.head)]
    {
      pool.Deallocate(p);
    }

    /** `operator==`: allocators are equal exactly when they share a pool. */
    predicate Equals(rhs: PoolAllocator)
      ensures Equals(rhs) <==> pool == rhs.pool
    {
      pool == rhs.pool
    }

    /** `operator!=` */
    predicate NotEquals(rhs: PoolAllocator)
      ensures NotEquals(rhs) <==> !Equals(rhs)
    {
      !Equals(rhs)
    }
  }

  /** Equal allocators stand in for each other: a block allocated through
      `a` may be freed through an equal `b`, and goes back to the shared pool
      exactly as if `a` had freed it, so `a` hands it out again next. */
  method FreeThroughEqual(a: PoolAllocator, b: PoolAllocator) returns (p: Option<nat>, q: Option<nat>)
    requires a.Equals(b) && a.pool.Valid()
    modifies a.pool`head, a.pool`free, a.pool.next
    ensures a.pool.Valid()
    ensures p.None? <==> old(a.pool.free) == []
    ensures p.None? ==> a.pool.free == old(a.pool.free)
    ensures p.Some? ==> q == p && a.pool.free == old(a.pool.free)[1..]
    ensures p.Some? ==> a.pool.Live() == old(a.pool.Live()) + {old(a.pool.free)[0]}
  {
    var pool := a.pool;
    p := a.Allocate(1);
    if p.None? {
      return p, None;
    }
    ghost var f0 := old(pool.free)[0];
    ghost var afterAlloc := pool.free;
    b.Deallocate(p.value, 1);
    ghost var i :| 0 <= i < pool.elementCount && p.value == pool.BlockAddress(i)
      && pool.free == [i] + afterAlloc && pool.Live() == old(pool.Live()) + {f0} - {i};
    if i != f0 {
      pool.BlockAddressInjective(i, f0);
    }
    q := a.Allocate(1);
    assert pool.free == afterAlloc;
    assert pool.Live() == old(pool.Live()) + {f0};
  }

  /** The rebinding copy compares equal to its source and an allocator over
      another pool does not; a block from one allocator, freed through its
      rebound copy, is the next block the first allocator hands out. */
  method PoolAllocatorsInterchange(block: nat, otherBlock: nat) returns (sameEqual: bool, sameNotEqual: bool,
                                                                       otherEqual: bool, otherNotEqual: bool,
                                                                       p: Option<nat>, q: Option<nat>)
    requires block != 0 && otherBlock != 0
    ensures sameEqual && !sameNotEqual
    ensures !otherEqual && otherNotEqual
    ensures p.Some? && q == p
  {
    var pool := new FixedPool(4, 2, block);
    var other := new FixedPool(4, 2, otherBlock);
    var a := new PoolAllocator(pool);
    var b := new PoolAllocator.Rebind(a);
    var c := new PoolAllocator(other);
    sameEqual, sameNotEqual := b.Equals(a), b.NotEquals(a);
    otherEqual, otherNotEqual := c.Equals(a), c.NotEquals(a);
    p, q := FreeThroughEqual(a, b);
  }

  /** The basic test: a pool of four `int`-sized blocks gives four distinct
      non-null blocks, then `nullptr`; after the second block is freed the
      next allocation returns that block. */
  method PoolBasic(block: nat) returns (p1: nat, p2: nat, p3: nat, p4: nat, exhausted: nat, again: nat)
    requires block != 0
    ensures p1 != 0 && p2 != 0 && p3 != 0 && p4 != 0
    ensures p1 != p2 && p1 != p3 && p1 != p4 && p2 != p3 && p2 != p4 && p3 != p4
    ensures exhausted == 0
    ensures again == p2
  {
    var pool := new FixedPool(4, 4, block);
    p1 := pool.Allocate();
    p2 := pool.Allocate();
    p3 := pool.Allocate();
    p4 := pool.Allocate();
    pool.BlockAddressInjective(3, 2);
    pool.BlockAddressInjective(3, 1);
    pool.BlockAddressInjective(3, 0);
    pool.BlockAddressInjective(2, 1);
    pool.BlockAddressInjective(2, 0);
    pool.BlockAddressInjective(1, 0);
    exhausted := pool.Allocate();
    assert 2 in pool.Live();
    pool.Deallocate(p2);
    again := pool.Allocate();
  }
}
