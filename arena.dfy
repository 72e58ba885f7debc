/** The bump-pointer `arena` and the `arena_allocator<T>` adaptor over it.
    Addresses are naturals below 2^64 and 0 is `nullptr`. What
    `::operator new` returns is a parameter of the owning constructor, and
    what `::operator delete` receives is a result of the move assignment. */
module Arenas {
  import opened Bits
  import opened Wrappers

  /** The least multiple of `alignment` that is at least `addr` (least by
      AlignUpLeast). */
  function AlignUp(addr: nat, alignment: nat): (r: nat)
    requires alignment >= 1
    ensures r % alignment == 0 && addr <= r < addr + alignment
  {
    var q, rem := addr / alignment, addr % alignment;
    if rem == 0 then
      addr
    else
      assert addr + (alignment - rem) == alignment * (q + 1);
      ModOfDecomposition(addr + (alignment - rem), alignment, q + 1, 0);
      addr + (alignment - rem)
  }

  /** No multiple of the alignment at or above `addr` lies below AlignUp. */
  lemma AlignUpLeast(addr: nat, alignment: nat, m: nat)
    requires alignment >= 1 && addr <= m && m % alignment == 0
    ensures AlignUp(addr, alignment) <= m
  {
    if addr % alignment != 0 {
      MultiplesAbove(addr, alignment);
    }
  }

  /** A multiple of `a` at or above `x` is at or above the next multiple. */
  lemma MultiplesAbove(x: nat, a: nat)
    requires a >= 1 && x % a != 0
    ensures forall m: nat :: x <= m && m % a == 0 ==> x + (a - x % a) <= m
  {
    forall m: nat | x <= m && m % a == 0 ensures x + (a - x % a) <= m {
      var q := x / a;
      assert x == a * q + x % a;
      assert m == a * (m / a);
      if m / a <= q {
        MulMonotone(a, m / a, q);
      } else {
        MulMonotone(a, q + 1, m / a);
      }
    }
  }

  lemma MulMonotone(a: nat, b: nat, c: nat)
    requires b <= c
    ensures a * b <= a * c
  {
  }

  /** `align_ptr`: `(addr + (alignment - 1)) & ~(alignment - 1)` in
      `std::uintptr_t`, where the subtraction, the addition and the
      complement all wrap at 2^64. */
  function AlignPtr(addr: nat, alignment: nat): (r: nat)
    requires addr < WORD && alignment < WORD
    ensures IsPowerOfTwo(alignment) && addr + alignment <= WORD ==> r == AlignUp(addr, alignment)
  {
    var low := (alignment + WORD - 1) % WORD;
    AlignPtrRoundsUp(addr, alignment);
    And((addr + low) % WORD, WORD - 1 - low)
  }

  lemma AlignPtrRoundsUp(addr: nat, alignment: nat)
    requires addr < WORD && alignment < WORD
    ensures var low := (alignment + WORD - 1) % WORD;
      IsPowerOfTwo(alignment) && addr + alignment <= WORD ==>
        And((addr + low) % WORD, WORD - 1 - low) == AlignUp(addr, alignment)
  {
    if IsPowerOfTwo(alignment) && addr + alignment <= WORD {
      WordIsPowerOfTwo();
      AlignBump(addr, alignment, WORD);
      RoundDownOfBump(addr, alignment);
    }
  }

  /** In any power-of-two word size `big`, the masked bump is addr + a - 1
      rounded down to a multiple of `a`. */
  lemma AlignBump(addr: nat, a: nat, big: nat)
    requires IsPowerOfTwo(big) && IsPowerOfTwo(a) && a < big && addr + a <= big
    ensures var low := (a + big - 1) % big;
      And((addr + low) % big, big - 1 - low) == (addr + (a - 1)) - (addr + (a - 1)) % a
  {
    BumpOperands(addr, a, big);
    var low, x := (a + big - 1) % big, addr + (a - 1);
    assert (addr + low) % big == x && big - 1 - low == big - a;
    AndHighMask(x, big, a);
  }

  /** Without wrap-around, the operands of the mask are addr + a - 1 and
      big - a. */
  lemma BumpOperands(addr: nat, a: nat, big: nat)
    requires 1 <= a < big && addr + a <= big
    ensures var low := (a + big - 1) % big;
      low == a - 1 && (addr + low) % big == addr + (a - 1) && big - 1 - low == big - a
  {
    ModOfDecomposition(a + big - 1, big, 1, a - 1);
    ModOfDecomposition(addr + (a - 1), big, 0, addr + (a - 1));
  }

  /** Rounding addr + a - 1 down to a multiple of a rounds addr up. */
  lemma RoundDownOfBump(addr: nat, a: nat)
    requires a >= 1
    ensures (addr + (a - 1)) - (addr + (a - 1)) % a == AlignUp(addr, a)
  {
    var q, r := addr / a, addr % a;
    assert addr == a * q + r;
    if r == 0 {
      ModOfDecomposition(addr + (a - 1), a, q, a - 1);
    } else {
      assert addr + (a - 1) == a * (q + 1) + (r - 1);
      ModOfDecomposition(addr + (a - 1), a, q + 1, r - 1);
    }
  }

  class Arena {
    /** `begin_`, `end_`, `ptr_`: the block and the bump cursor. */
    var begin: nat
    var end: nat
    var ptr: nat
    /** `capacity_bytes_` */
    var capacityBytes: nat
    /** `owns_memory_` */
    var ownsMemory: bool

    /** The cursor stays inside the block; without a block the cursor is 0;
        with one, the block is `capacityBytes` long. All addresses fit in
        `std::uintptr_t`. */
    ghost predicate Valid()
      reads this
    {
      && begin <= ptr <= end < WORD
      && (begin == 0 ==> ptr == 0)
      && (begin != 0 ==> end == begin + capacityBytes)
    }

    /** `arena(capacity_bytes)`: `block` is what `::operator new(capacity_bytes,
        std::nothrow)` returned, 0 when it failed. A failed arena has no
        memory (every allocation fails) yet still reports the requested
        capacity. */
    constructor (capacity: nat, block: nat)
      requires block == 0 || block + capacity < WORD
      ensures Valid()
      ensures begin == block && ptr == block && capacityBytes == capacity && ownsMemory
      ensures end == if block == 0 then 0 else block + capacity
    {
      begin := block;
      end := if block != 0 then block + capacity else 0;
      ptr := block;
      capacityBytes := capacity;
      ownsMemory := true;
    }

    /** `arena(buffer, capacity_bytes)`: a caller-provided buffer, not owned. */
    constructor FromBuffer(buffer: nat, capacity: nat)
      requires buffer + capacity < WORD
      ensures Valid()
      ensures begin == buffer && end == buffer + capacity && ptr == buffer
      ensures capacityBytes == capacity && !ownsMemory
    {
      begin := buffer;
      end := buffer + capacity;
      ptr := buffer;
      capacityBytes := capacity;
      ownsMemory := false;
    }

    /** `arena(arena&&)`: takes over all five fields and leaves `other` with
        no memory, capacity 0 and no ownership. */
    constructor Move(other: Arena)
      requires other.Valid()
      modifies other
      ensures Valid() && other.Valid()
      ensures begin == old(other.begin) && end == old(other.end) && ptr == old(other.ptr)
      ensures capacityBytes == old(other.capacityBytes) && ownsMemory == old(other.ownsMemory)
      ensures other.begin == 0 && other.end == 0 && other.ptr == 0
      ensures other.capacityBytes == 0 && !other.ownsMemory
    {
      begin := other.begin;
      end := other.end;
      ptr := other.ptr;
      capacityBytes := other.capacityBytes;
      ownsMemory := other.ownsMemory;
      new;
      other.begin, other.end, other.ptr := 0, 0, 0;
      other.capacityBytes := 0;
      other.ownsMemory := false;
    }

    /** `operator=(arena&&)`: unless it is a self-assignment, releases the
        owned block (returned as `released`, 0 if none), takes over `other`'s
        fields and empties `other`. A self-assignment changes nothing. */
    method MoveAssign(other: Arena) returns (released: nat)
      requires Valid() && other.Valid()
      modifies this, other
      ensures Valid() && other.Valid()
      ensures other == this ==> released == 0 && begin == old(begin) && end == old(end) && ptr == old(ptr)
                                && capacityBytes == old(capacityBytes) && ownsMemory == old(ownsMemory)
      ensures other != this ==> released == (if old(ownsMemory) && old(begin) != 0 then old(begin) else 0)
      ensures other != this ==> begin == old(other.begin) && end == old(other.end) && ptr == old(other.ptr)
                                && capacityBytes == old(other.capacityBytes) && ownsMemory == old(other.ownsMemory)
      ensures other != this ==> other.begin == 0 && other.end == 0 && other.ptr == 0
                                && other.capacityBytes == 0 && !other.ownsMemory
    {
      released := 0;
      if this != other {
        if ownsMemory && begin != 0 {
          released := begin;
        }
        begin := other.begin;
        end := other.end;
        ptr := other.ptr;
        capacityBytes := other.capacityBytes;
        ownsMemory := other.ownsMemory;
        other.begin, other.end, other.ptr := 0, 0, 0;
        other.capacityBytes := 0;
        other.ownsMemory := false;
      }
    }

    /** `allocate(bytes, alignment)`: fails without memory or when the
        aligned block would pass `end_`; otherwise returns the cursor rounded
        up to the alignment and bumps the cursor past the block. */
    method Allocate(bytes: nat, alignment: nat) returns (p: nat)
      requires Valid() && IsPowerOfTwo(alignment) && ptr + alignment <= WORD
      modifies this`ptr
      ensures Valid()
      ensures p == 0 <==> begin == 0 || AlignUp(old(ptr), alignment) + bytes > end
      ensures p == 0 ==> ptr == old(ptr)
      ensures p != 0 ==> p == AlignUp(old(ptr), alignment) && ptr == p + bytes
      ensures p != 0 ==> p % alignment == 0 && begin <= old(ptr) <= p && p + bytes <= end
    {
      if begin == 0 {
        return 0;
      }
      var aligned := AlignPtr(ptr, alignment);
      if aligned + bytes > end {
        return 0;
      }
      ptr := aligned + bytes;
      p := aligned;
    }

    /** `reset()`: rewinds the cursor to the start of the block. */
    method Reset()
      requires Valid()
      modifies this`ptr
      ensures Valid() && ptr == begin && Used() == 0
    {
      ptr := begin;
    }

    /** `capacity()`: the requested size, which is the block's length
        whenever there is a block. */
    function Capacity(): (c: nat)
      reads this
      requires Valid()
      ensures begin != 0 ==> c == end - begin
    {
      capacityBytes
    }

    /** `used()`: the bytes handed out since construction or the last reset,
        never more than the capacity. */
    function Used(): (n: nat)
      reads this
      requires Valid()
      ensures begin + n == ptr && n <= Capacity()
    {
      ptr - begin
    }
  }

  /** `arena_allocator<T>`: `elementSize` and `elementAlignment` stand for
      `sizeof(T)` and `alignof(T)`. */
  class ArenaAllocator {
    const arena: Arena
    const elementSize: nat
    const elementAlignment: nat

    ghost predicate Valid()
    {
      elementSize >= 1 && IsPowerOfTwo(elementAlignment)
    }

    constructor (a: Arena, size: nat, alignment: nat)
      requires size >= 1 && IsPowerOfTwo(alignment)
      ensures Valid() && arena == a && elementSize == size && elementAlignment == alignment
    {
      arena := a;
      elementSize := size;
      elementAlignment := alignment;
    }

    /** The rebinding copy `arena_allocator<T>(const arena_allocator<U>&)`:
        same arena, another element type. */
    constructor Rebind(other: ArenaAllocator, size: nat, alignment: nat)
      requires size >= 1 && IsPowerOfTwo(alignment)
      ensures Valid() && arena == other.arena && elementSize == size && elementAlignment == alignment
      ensures Equals(other)
    {
      arena := other.arena;
      elementSize := size;
      elementAlignment := alignment;
    }

    /** `allocate(n)`: asks the arena for `n * sizeof(T)` bytes, a product
        computed in `std::size_t` and so taken modulo 2^64, at `alignof(T)`;
        `None` stands for the `std::bad_alloc` thrown when the arena fails. */
    method Allocate(n: nat) returns (p: Option<nat>)
      requires Valid() && arena.Valid() && n < WORD
      requires arena.ptr + elementAlignment <= WORD
      modifies arena`ptr
      ensures arena.Valid()
      ensures p.None? <==> arena.begin == 0 || AlignUp(old(arena.ptr), elementAlignment) + (n * elementSize) % WORD > arena.end
      ensures p.None? ==> arena.ptr == old(arena.ptr)
      ensures p.Some? ==> p.value == AlignUp(old(arena.ptr), elementAlignment)
                          && arena.ptr == p.value + (n * elementSize) % WORD
    {
      var a := arena.Allocate((n * elementSize) % WORD, elementAlignment);
      if a == 0 {
        return None;
      }
      return Some(a);
    }

    /** `allocate(n)` with the count checked against `SIZE_MAX / sizeof(T)`
        first, as `std::allocator` does: a success then always hands out room
        for all `n` elements inside the arena. */
    method AllocateChecked(n: nat) returns (p: Option<nat>)
      requires Valid() && arena.Valid() && n < WORD
      requires arena.ptr + elementAlignment <= WORD
      modifies arena`ptr
      ensures arena.Valid()
      ensures n * elementSize >= WORD ==> p.None? && arena.ptr == old(arena.ptr)
      ensures n * elementSize < WORD ==>
        (p.None? <==> arena.begin == 0 || AlignUp(old(arena.ptr), elementAlignment) + n * elementSize > arena.end)
      ensures p.None? ==> arena.ptr == old(arena.ptr)
      ensures p.Some? ==> p.value == AlignUp(old(arena.ptr), elementAlignment)
      ensures p.Some? ==> old(arena.ptr) <= p.value && p.value + n * elementSize <= arena.end
      ensures p.Some? ==> p.value % elementAlignment == 0 && arena.ptr == p.value + n * elementSize
    {
      if n * elementSize >= WORD {
        return None;
      }
      ModOfDecomposition(n * elementSize, WORD, 0, n * elementSize);
      p := Allocate(n);
    }

    /** `deallocate(p, n)`: a no-op; arena memory comes back only by `reset`. */
    method Deallocate(p: nat, n: nat)
      requires arena.Valid()
      ensures arena.ptr == old(arena.ptr) && arena.Used() == old(arena.Used())
    {
    }

    /** `operator==`: allocators are equal exactly when they share an arena. */
    predicate Equals(rhs: ArenaAllocator)
      ensures Equals(rhs) <==> arena == rhs.arena
    {
      arena == rhs.arena
    }

    /** `operator!=` */
    predicate NotEquals(rhs: ArenaAllocator)
      ensures NotEquals(rhs) <==> !Equals(rhs)
    {
      !Equals(rhs)
    }
  }

  /** Equal allocators share one bump cursor: a block allocated through `b`
      after one allocated through an equal `a` starts past the end of `a`'s
      block, and freeing through either changes nothing. */
  method AllocateThroughEqual(a: ArenaAllocator, b: ArenaAllocator, n: nat, m: nat) returns (p: Option<nat>, q: Option<nat>)
    requires a.Equals(b) && a.Valid() && b.Valid() && a.arena.Valid()
    requires n < WORD && m < WORD
    requires a.arena.end + a.elementAlignment <= WORD && a.arena.end + b.elementAlignment <= WORD
    modifies a.arena`ptr
    ensures a.arena.Valid()
    ensures p.Some? && q.Some? ==> p.value + (n * a.elementSize) % WORD <= q.value
    ensures q.Some? ==> a.arena.ptr == q.value + (m * b.elementSize) % WORD
  {
    p := a.Allocate(n);
    q := b.Allocate(m);
    if p.Some? {
      b.Deallocate(p.value, n);
    }
  }

  /** The rebinding copy compares equal to its source and an allocator over
      another arena does not; two 16-byte blocks taken through the two equal
      allocators come out back to back from the shared arena. */
  method ArenaAllocatorsShare(block: nat) returns (sameEqual: bool, sameNotEqual: bool,
                                                  otherEqual: bool, otherNotEqual: bool,
                                                  p: Option<nat>, q: Option<nat>, used: nat)
    requires block != 0 && block % 8 == 0 && block + 64 < WORD
    ensures sameEqual && !sameNotEqual
    ensures !otherEqual && otherNotEqual
    ensures p == Some(block) && q == Some(block + 16) && used == 32
  {
    var arena := new Arena(64, block);
    var other := new Arena(64, 0);
    var a := new ArenaAllocator(arena, 4, 4);
    var b := new ArenaAllocator.Rebind(a, 8, 8);
    var c := new ArenaAllocator(other, 4, 4);
    sameEqual, sameNotEqual := b.Equals(a), b.NotEquals(a);
    otherEqual, otherNotEqual := c.Equals(a), c.NotEquals(a);
    assert a.elementSize == 4 && b.elementSize == 8 && b.arena == arena;
    assert 4 * a.elementSize == 16 && 2 * b.elementSize == 16;
    var k := block / 8;
    assert block == 8 * k;
    ModOfDecomposition(block, 4, 2 * k, 0);
    ModOfDecomposition(block + 16, 8, k + 2, 0);
    RoundUpMultiple(block, 4);
    p := a.AllocateChecked(4);
    assert arena.ptr == block + 16;
    RoundUpMultiple(block + 16, 8);
    q := b.AllocateChecked(2);
    assert arena.ptr == block + 32;
    b.Deallocate(p.value, 4);
    used := arena.Used();
  }

  /** An address that is already a multiple of the alignment stays put. */
  lemma RoundUpMultiple(addr: nat, alignment: nat)
    requires alignment >= 1 && addr % alignment == 0
    ensures AlignUp(addr, alignment) == addr
  {
  }

  /** `n * sizeof(T)` wraps: for an 8-byte element, 2^61 elements ask the
      arena for 0 bytes. */
  lemma ByteCountWraps()
    ensures ((WORD / 8) * 8) % WORD == 0
  {
    ModOfDecomposition(WORD, WORD, 1, 0);
  }

  /** A 64-byte arena "allocates" 2^61 eight-byte elements: the wrapped byte
      count is 0, so the arena hands out a block and the allocator reports
      success for far more memory than the arena has. */
  method OverflowingRequest(block: nat) returns (p: Option<nat>, rejected: Option<nat>)
    requires block != 0 && block % 8 == 0 && block + 64 < WORD
    ensures p == Some(block)
    ensures rejected == None
  {
    var a := new Arena(64, block);
    var alloc := new ArenaAllocator(a, 8, 8);
    ByteCountWraps();
    assert AlignUp(block, 8) == block;
    p := alloc.Allocate(WORD / 8);
    a.Reset();
    rejected := alloc.AllocateChecked(WORD / 8);
  }

  /** The basic test: in a 1 KiB arena two 16-byte blocks come out in
      increasing, disjoint order, and after `reset` the whole capacity can be
      taken at once. */
  method ArenaBasic(block: nat) returns (p1: nat, p2: nat, p3: nat)
    requires block != 0 && block % 16 == 0 && block + 1024 < WORD
    ensures p1 != 0 && p2 != 0 && p3 != 0
    ensures p1 + 16 <= p2
  {
    var a := new Arena(1024, block);
    assert AlignUp(block, 4) == block;
    p1 := a.Allocate(16, 4);
    p2 := a.Allocate(16, 4);
    a.Reset();
    p3 := a.Allocate(1024, 4);
  }
}
