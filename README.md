# hpc core: lock-free ring buffers and allocators, modelled in Dafny

This project models the low-latency core of the `hpc::core` library and proves what it promises. There are four parts:

- `spsc_ring_buffer<T>` (`spsc_ring_buffer.dfy`, module `Spsc`). This is the single-producer single-consumer bounded FIFO. It has a power-of-two slot array and two cursors that both stay below the storage size. One slot is reserved, so the usable capacity is the storage size minus one. It offers single and batch push/pop and the zero-copy slot-acquire/commit interface.
- `mpmc_ring_buffer<T>` (`mpmc_ring_buffer.dfy`, module `Mpmc`). This is Vyukov's bounded multi-producer multi-consumer queue. Every cell carries a sequence number that says which lap of which cursor the cell is waiting for. The cursors grow without bound and are masked to pick a cell.
- `arena` and `arena_allocator<T>` (`arena.dfy`, module `Arenas`). The arena is a bump-pointer allocator over one block, which is either owned or borrowed from the caller. It has `reset`, move construction and move assignment. The STL-style allocator adaptor sits on top of it.
- `fixed_pool` and `pool_allocator<T>` (`pool.dfy`, module `Pools`). The pool holds fixed-size blocks carved from one allocation. The free blocks are threaded into an intrusive singly-linked list. The adaptor hands out one object at a time.

The supporting modules are:

- `Bits` (`bits.dfy`): unsigned 64-bit word arithmetic on naturals, covering `|`, `&`, `>>`, powers of two, and "mask by a power of two minus one is a modulo".
- `PowerOfTwo` (`power_of_two.dfy`): the `round_up_to_power_of_two` helper that both ring buffers carry.
- `Ring` (`ring.dfy`): circular windows over a slot array. It also declares `Wrappers.Option`.

Both ring buffers are classes over an `array`. Each has a ghost `Contents()`, which is the queued elements oldest first. Every operation states its effect on `Contents()` and on the cursors. The arena and the pool are classes whose methods update the cursor, the free-list head and the link words in place.

The model is sequential: each call runs to completion before the next begins. The memory orderings are not modelled. In the MPMC queue, `compare_exchange_weak` may fail spuriously even when nothing else runs. The number of such failures is a parameter of `TryPush`/`TryPop`, and the batch operations pass 0.

The SPSC basic test (tests/test_ring_buffer_basic.cpp:7-8) promises only that a request for 8 gives a usable capacity of at least 7. The constructor rounds `capacity + 1` up (include/hpc/core/ring_buffer.hpp:32), and `capacity()` is the storage size minus one (:152). So a request for 8 gets 16 slots and a usable capacity of exactly 15, and all eight pushes of the test succeed. `Spsc.BasicPushPop` proves exactly that.

## Model

| member | source | states |
|---|---|---|
| Bits.AndLowMask | include/hpc/core/ring_buffer.hpp:179 | `x & (p - 1)` equals `x % p` for every power of two `p`, which is what lets `& mask_` pick a slot |
| Bits.AndHighMask | src/arena_allocator.cpp:13 | for `x` below a power of two `P`, `x & (P - a)` (that is, `x & ~(a - 1)`) rounds `x` down to a multiple of `a` |
| Bits.LeastPowerOfTwoUnique | include/hpc/core/ring_buffer.hpp:155-163 | a power of two at least `n` whose half is below `n` is unique, so the rounding result is determined |
| PowerOfTwo.SmearRound | include/hpc/core/ring_buffer.hpp:159-161 | one round `n \|= n >> i` keeps the top bit, sets no higher bit and doubles the run of ones below the top bit |
| PowerOfTwo.SmearedOnes | include/hpc/core/ring_buffer.hpp:159-161 | once the run of ones covers all positions below the top bit, the value is 2^k - 1 |
| PowerOfTwo.SmearedResult | include/hpc/core/ring_buffer.hpp:162 | 2^k for k the bit length of n - 1, truncated to 64 bits, is the least power of two at least n when n <= 2^63, and 0 above that |
| PowerOfTwo.RoundUpToPowerOfTwo | include/hpc/core/ring_buffer.hpp:155-163 | returns 2 below 2; for 2 <= n <= 2^63 returns the least power of two at least n; above 2^63 returns 0 (the 64-bit wrap of 2^64). mpmc_ring_buffer.hpp:196-204 is a verbatim copy |
| Ring.WindowPush | include/hpc/core/ring_buffer.hpp:56-57 | writing the slot just past a window shorter than the ring appends that value to the window |
| Ring.WindowPop | include/hpc/core/ring_buffer.hpp:80-84 | advancing the window start by one drops the oldest element |
| Ring.WriteRunAppend | include/hpc/core/ring_buffer.hpp:88-95 | writing a run of values just past a window, within one lap, extends the window by that run in order |
| Spsc.Distance | include/hpc/core/ring_buffer.hpp:181-184 | the 64-bit wrapped difference: tail - head when tail >= head, otherwise 2^64 - (head - tail); the mask does not reduce it |
| Spsc.ForwardDistance | include/hpc/core/ring_buffer.hpp:171-175 | the occupancy: the unique d below the storage size with head + d = tail modulo the size |
| Spsc.MaskedDistance | include/hpc/core/ring_buffer.hpp:181-184 | `distance(tail, head) & mask_` equals the forward distance (the occupancy) in every cursor position |
| Spsc.MaskedDistanceCounts | include/hpc/core/ring_buffer.hpp:181-184 | same fact as a lemma: masking the wrapped difference counts the queued elements |
| Spsc.WrappedDistanceMod | include/hpc/core/ring_buffer.hpp:183 | since 2^64 is a multiple of the storage size, the wrapped difference reduced by the size is tail + size - head |
| Spsc.StorageSizeFor | include/hpc/core/ring_buffer.hpp:32 | the storage size `round_up_to_power_of_two(capacity + 1)` is a power of two of at least `capacity + 1`; for `capacity >= 1` it is at most twice `capacity`, and for 0 it is 2 |
| Spsc.DistanceFullIff | include/hpc/core/ring_buffer.hpp:52 | the unmasked full test `distance(tail, head) == capacity()` holds exactly when tail == size - 1 and head == 0 (both directions) |
| Spsc.FullTestMissesWrap | include/hpc/core/ring_buffer.hpp:52 | with the cursors wrapped (tail == head - 1, head > 0) the buffer holds `capacity()` elements, yet the unmasked test does not fire |
| Spsc.AdvanceTail | include/hpc/core/ring_buffer.hpp:57 | moving the tail over k free slots raises the occupancy by k |
| Spsc.AppendRun | include/hpc/core/ring_buffer.hpp:88-95 | a run written at the tail of a ring with room for it appends the run to the contents and moves the tail past it |
| Spsc.NextCursor | include/hpc/core/ring_buffer.hpp:179 | advancing a cursor below the size by one wraps to 0 exactly at the end |
| Spsc.SpscRingBuffer.Capacity | include/hpc/core/ring_buffer.hpp:152 | the usable capacity is at least 1 |
| Spsc.SpscRingBuffer.Occupancy | include/hpc/core/ring_buffer.hpp:171 | the number of queued elements never exceeds the usable capacity (one slot stays reserved) |
| Spsc.SpscRingBuffer.Next | include/hpc/core/ring_buffer.hpp:179 | `(idx + 1) & mask_` is `(idx + 1) % size` and is a valid slot |
| Spsc.SpscRingBuffer.ElementAt | include/hpc/core/ring_buffer.hpp:186-190 | `idx & mask_` is `idx % size`, a valid slot, and the identity for a cursor in range |
| Spsc.SpscRingBuffer.constructor | include/hpc/core/ring_buffer.hpp:31-36 | the storage size is a power of two, at least capacity + 1 and at most twice the request; the usable capacity covers the request; the buffer starts empty with both cursors at 0 |
| Spsc.SpscRingBuffer.TryPush | include/hpc/core/ring_buffer.hpp:48-72 | as written: fails exactly when tail == capacity() and head == 0; below capacity it appends the value; at capacity with head != 0 it succeeds and empties the buffer |
| Spsc.SpscRingBuffer.TryPushMasked | include/hpc/core/ring_buffer.hpp:48-59 | with the masked full test: fails exactly when `capacity()` elements are queued and leaves everything unchanged; otherwise appends the value |
| Spsc.SpscRingBuffer.TryPop | include/hpc/core/ring_buffer.hpp:74-86 | none exactly when head == tail; otherwise yields the oldest element, removes it and leaves the tail alone |
| Spsc.SpscRingBuffer.TryPushBatch | include/hpc/core/ring_buffer.hpp:88-95 | pushes until a push fails; the count pushed, the new tail and the slot contents are stated exactly; with room for all `count`, the contents gain `src[..count]` |
| Spsc.SpscRingBuffer.TryPopBatch | include/hpc/core/ring_buffer.hpp:97-104 | pops min(count, occupancy) elements into `dst` oldest first, leaves the rest of `dst` alone and drops those elements from the contents |
| Spsc.SpscRingBuffer.PushBatchCount | include/hpc/core/ring_buffer.hpp:88-95 | where a batch push stops: min(count, capacity() - tail) when head == 0, otherwise all of it |
| Spsc.SpscRingBuffer.TryAcquireProducerSlot | include/hpc/core/ring_buffer.hpp:106-114 | none exactly when the unmasked full test fires; otherwise the slot at `tail` |
| Spsc.SpscRingBuffer.CommitProducerSlot | include/hpc/core/ring_buffer.hpp:116-120 | advances the tail without a recheck; below capacity it appends the slot's value; at capacity the buffer then reads as empty |
| Spsc.SpscRingBuffer.TryAcquireConsumerSlot | include/hpc/core/ring_buffer.hpp:122-130 | none exactly when the buffer is empty; otherwise the slot at `head` |
| Spsc.SpscRingBuffer.ReleaseConsumerSlot | include/hpc/core/ring_buffer.hpp:132-136 | advances the head without a recheck; on a non-empty buffer it drops the oldest element; on an empty one the buffer then claims `capacity()` elements |
| Spsc.SpscRingBuffer.Empty | include/hpc/core/ring_buffer.hpp:138-143 | true exactly when nothing is queued |
| Spsc.SpscRingBuffer.Full | include/hpc/core/ring_buffer.hpp:145-150 | true exactly when tail == capacity() and head == 0; full implies `capacity()` elements; a wrapped buffer holding `capacity()` elements is not reported full |
| Spsc.BasicPushPop | tests/test_ring_buffer_basic.cpp:5-31 | a buffer for 8 has capacity 15; pushing 0..7 accepts all eight; popping returns 0..7 in order; the buffer is then empty |
| Spsc.WrappedOverfill | include/hpc/core/ring_buffer.hpp:48-59 | a capacity-1 buffer after push, pop, push accepts a third push, then reads as empty and yields nothing |
| Mpmc.ModLap | include/hpc/core/mpmc_ring_buffer.hpp:94 | cursor k + capacity uses the same cell as cursor k |
| Mpmc.CapacityFor | include/hpc/core/mpmc_ring_buffer.hpp:36 | the capacity `round_up_to_power_of_two(capacity)` chooses is a power of two between 2 and 2^63 that covers the request, and is the least such for a request of at least 2 |
| Mpmc.LapsInitial | include/hpc/core/mpmc_ring_buffer.hpp:40-44 | giving cell i sequence i makes every cell free for the first lap of pushes |
| Mpmc.LapsFull | include/hpc/core/mpmc_ring_buffer.hpp:111-113 | with every cell queued, the cell of `tail` still holds the element for the pop at `head` (sequence head + 1, behind tail) |
| Mpmc.LapsTailCell | include/hpc/core/mpmc_ring_buffer.hpp:94-98 | the producer's cell has sequence `tail` unless the queue is full, and then sequence head + 1 |
| Mpmc.PopProbe | include/hpc/core/mpmc_ring_buffer.hpp:135-137 | the consumer's cell has sequence head + 1 exactly when the queue is non-empty, otherwise `head` |
| Mpmc.LapsPush | include/hpc/core/mpmc_ring_buffer.hpp:105-107 | publishing a value with sequence tail + 1 keeps the lap invariant and appends the value |
| Mpmc.LapsPop | include/hpc/core/mpmc_ring_buffer.hpp:146-151 | retiring the popped cell with sequence head + capacity keeps the lap invariant, drops the oldest element and yields it |
| Mpmc.MpmcRingBuffer.Capacity | include/hpc/core/mpmc_ring_buffer.hpp:64 | the capacity is a power of two of at least 2 |
| Mpmc.MpmcRingBuffer.CellIndex | include/hpc/core/mpmc_ring_buffer.hpp:94 | `idx & mask_` is `idx % capacity`, a valid cell |
| Mpmc.MpmcRingBuffer.constructor | include/hpc/core/mpmc_ring_buffer.hpp:35-45 | rounds the request up to a power of two (2 below 2); the queue starts empty with every cell free for lap one |
| Mpmc.MpmcRingBuffer.TryPush | include/hpc/core/mpmc_ring_buffer.hpp:89-129 | succeeds exactly when fewer than `capacity` elements are queued, and then appends the value; otherwise nothing changes; spurious CAS failures only retry |
| Mpmc.MpmcRingBuffer.Publish | include/hpc/core/mpmc_ring_buffer.hpp:104-108 | after the won CAS: the tail moves by one and the value is appended |
| Mpmc.MpmcRingBuffer.TryPop | include/hpc/core/mpmc_ring_buffer.hpp:131-162 | none exactly when the queue is empty (nothing changes); otherwise yields the oldest element and removes it |
| Mpmc.MpmcRingBuffer.Consume | include/hpc/core/mpmc_ring_buffer.hpp:145-152 | after the won CAS: yields the oldest element and removes it |
| Mpmc.MpmcRingBuffer.Empty | include/hpc/core/mpmc_ring_buffer.hpp:66-71 | true exactly when nothing is queued |
| Mpmc.MpmcRingBuffer.Full | include/hpc/core/mpmc_ring_buffer.hpp:73-80 | the sequence of the tail's cell is behind `tail` exactly when `capacity` elements are queued |
| Mpmc.MpmcRingBuffer.ApproximateSize | include/hpc/core/mpmc_ring_buffer.hpp:82-87 | `tail - head` is the number of queued elements, at most the capacity |
| Mpmc.MpmcRingBuffer.TryPushBatch | include/hpc/core/mpmc_ring_buffer.hpp:164-171 | pushes min(count, free cells) values and appends exactly `src[..pushed]` |
| Mpmc.MpmcRingBuffer.TryPopBatch | include/hpc/core/mpmc_ring_buffer.hpp:173-180 | pops min(count, queued) elements into `dst` oldest first and removes them |
| Mpmc.PushCount | tests/test_mpmc_ring_buffer.cpp:19-21 | pushing 0 .. n-1 into an empty queue with room accepts every push and queues exactly 0 .. n-1 |
| Mpmc.PopAll | tests/test_mpmc_ring_buffer.cpp:24-27 | popping until empty returns the old contents in order |
| Mpmc.SingleThreadPushPop | tests/test_mpmc_ring_buffer.cpp:12-30 | a queue for 8 has capacity 8 and starts empty and not full; eight pushes succeed and it is full; the pops return 0..7 and it ends empty |
| Mpmc.BatchInterfaces | tests/test_mpmc_ring_buffer.cpp:32-49 | a queue for 16 takes a batch of eight whole and the batch pop returns 0..7 |
| Arenas.AlignUp | src/arena_allocator.cpp:10-15 | the reference rounding: a multiple of the alignment, at least `addr`, less than addr + alignment |
| Arenas.AlignUpLeast | src/arena_allocator.cpp:10-15 | no multiple of the alignment at or above `addr` lies below the rounded address |
| Arenas.AlignPtr | src/arena_allocator.cpp:10-15 | the wrapped-word computation `(addr + (a - 1)) & ~(a - 1)` equals the least multiple of a power-of-two alignment at or above `addr`, when no address wraps |
| Arenas.AlignPtrRoundsUp | src/arena_allocator.cpp:13 | same fact as a lemma over the 64-bit operands |
| Arenas.AlignBump | src/arena_allocator.cpp:13 | in any power-of-two word size, the masked bump is addr + a - 1 rounded down to a multiple of `a` |
| Arenas.RoundDownOfBump | src/arena_allocator.cpp:13 | rounding addr + a - 1 down to a multiple of `a` rounds `addr` up |
| Arenas.Arena.constructor | src/arena_allocator.cpp:19-26 | owns the block; the cursor starts at the block; a failed allocation (null) leaves no memory but the requested capacity |
| Arenas.Arena.FromBuffer | src/arena_allocator.cpp:28-35 | a borrowed buffer: the same layout, not owned |
| Arenas.Arena.Move | src/arena_allocator.cpp:37-48 | takes over all five fields and leaves the source with no memory, capacity 0 and no ownership |
| Arenas.Arena.MoveAssign | src/arena_allocator.cpp:50-67 | self-assignment changes nothing; otherwise releases an owned block, takes over the source's fields and empties the source |
| Arenas.Arena.Allocate | src/arena_allocator.cpp:76-85 | null exactly when there is no memory or the aligned block would pass the end; otherwise returns the cursor rounded up to the alignment and bumps the cursor past the block, inside the arena |
| Arenas.Arena.Reset | src/arena_allocator.cpp:87-90 | the cursor returns to the block start and nothing is in use |
| Arenas.Arena.Capacity | include/hpc/core/arena_allocator.hpp:27 | the requested size, which is the block's length `end - begin` whenever there is a block |
| Arenas.Arena.Used | include/hpc/core/arena_allocator.hpp:28 | the bytes between the block start and the cursor, never more than the capacity |
| Arenas.ArenaAllocator.constructor | include/hpc/core/arena_allocator.hpp:47 | binds the allocator to the arena |
| Arenas.ArenaAllocator.Rebind | include/hpc/core/arena_allocator.hpp:49-50 | the rebound allocator shares the arena and compares equal |
| Arenas.ArenaAllocator.Allocate | include/hpc/core/arena_allocator.hpp:52-57 | as written: asks the arena for `(n * sizeof(T)) mod 2^64` bytes at `alignof(T)`; fails (bad_alloc) exactly when the arena does |
| Arenas.ArenaAllocator.AllocateChecked | include/hpc/core/arena_allocator.hpp:52-57 | with the byte count checked for overflow: refuses a byte count of 2^64 or more; otherwise fails exactly when the arena has no memory or the aligned block would pass the end, and any success hands out room for all n elements inside the arena |
| Arenas.ArenaAllocator.Deallocate | include/hpc/core/arena_allocator.hpp:59 | does nothing: the cursor and the bytes in use stay the same |
| Arenas.ArenaAllocator.Equals | include/hpc/core/arena_allocator.hpp:61-62 | equal exactly when both use the same arena; what that buys a caller is proved by `Arenas.AllocateThroughEqual` |
| Arenas.ArenaAllocator.NotEquals | include/hpc/core/arena_allocator.hpp:63-64 | the negation of equality; `Arenas.ArenaAllocatorsShare` shows allocators over different arenas compare not equal |
| Arenas.AllocateThroughEqual | include/hpc/core/arena_allocator.hpp:61-62 | equal allocators share one bump cursor: a block taken through `b` after one taken through an equal `a` starts past the end of `a`'s block, and freeing through either changes nothing |
| Arenas.ArenaAllocatorsShare | include/hpc/core/arena_allocator.hpp:49-64 | a rebound copy compares equal (and not unequal) to its source; an allocator over another arena compares unequal; 16 bytes taken through each of the two equal allocators come out back to back at the start of the shared arena, and 32 bytes are in use |
| Arenas.ByteCountWraps | include/hpc/core/arena_allocator.hpp:54 | 2^61 eight-byte elements make a byte count of 0 modulo 2^64 |
| Arenas.OverflowingRequest | include/hpc/core/arena_allocator.hpp:52-57 | a 64-byte arena "allocates" 2^61 eight-byte elements; the checked variant refuses them |
| Arenas.ArenaBasic | tests/test_arena_allocator.cpp:5-21 | in a 1 KiB arena, two 16-byte allocations succeed in increasing, disjoint order; after reset the whole 1024 bytes can be taken |
| Pools.LinkedPop | src/pool_allocator.cpp:38-39 | unlinking the front block leaves a well-linked list whose front is the old front's `next` |
| Pools.LinkedPush | src/pool_allocator.cpp:46-48 | linking a block that is not on the list in front of it keeps the list well linked |
| Pools.DistinctCard | include/hpc/core/pool_allocator.hpp:21 | a free list without repeats has as many distinct blocks as entries |
| Pools.LiveCount | include/hpc/core/pool_allocator.hpp:21 | the blocks not on the free list number `element_count_` minus the list's length |
| Pools.FixedPool.BlockAddress | src/pool_allocator.cpp:22 | block i lives at `storage_ + i * element_size_`, which is non-null |
| Pools.FixedPool.BlockAddressInjective | src/pool_allocator.cpp:22 | different blocks have different addresses |
| Pools.FixedPool.constructor | src/pool_allocator.cpp:8-26 | the element size is raised to a node; every block is free, highest first, and each links to the one below; an empty pool has no storage |
| Pools.FixedPool.Allocate | src/pool_allocator.cpp:33-41 | null exactly when the free list is empty; otherwise pops the front block, returns its address, and the block goes from free to live |
| Pools.FixedPool.Deallocate | src/pool_allocator.cpp:43-49 | null changes nothing; a live block i is pushed onto the front of the free list and is no longer live; the only link word written is block i's, which now points at the old front |
| Pools.FixedPool.BlockIndex | src/pool_allocator.cpp:46 | recovers the block index of a block address |
| Pools.FixedPool.Capacity | include/hpc/core/pool_allocator.hpp:21 | `element_count_` is the number of free blocks plus the number of live blocks |
| Pools.FixedPool.DescendingChain | src/pool_allocator.cpp:21-25 | the constructor's list satisfies the free-list invariant |
| Pools.PoolAllocator.constructor | include/hpc/core/pool_allocator.hpp:38 | binds the allocator to the pool |
| Pools.PoolAllocator.Rebind | include/hpc/core/pool_allocator.hpp:40-41 | the rebound allocator shares the pool and compares equal |
| Pools.PoolAllocator.Allocate | include/hpc/core/pool_allocator.hpp:43-49 | n != 1 fails (bad_alloc) and changes nothing; for n == 1 it fails exactly when the pool is exhausted, and otherwise returns the pool's front block, which goes from free to live |
| Pools.PoolAllocator.Deallocate | include/hpc/core/pool_allocator.hpp:51 | forwards to the pool, with the pool's whole postcondition: null changes nothing; a live block goes back to the front of the free list, is no longer live, and only its own link word changes |
| Pools.PoolAllocator.Equals | include/hpc/core/pool_allocator.hpp:53-54 | equal exactly when both use the same pool; what that buys a caller is proved by `Pools.FreeThroughEqual` |
| Pools.PoolAllocator.NotEquals | include/hpc/core/pool_allocator.hpp:55-56 | the negation of equality; `Pools.PoolAllocatorsInterchange` shows allocators over different pools compare not equal |
| Pools.FreeThroughEqual | include/hpc/core/pool_allocator.hpp:53-54 | equal allocators stand in for each other: a block allocated through `a` can be freed through an equal `b` (it meets `b`'s requires), goes back to the shared pool, and is the next block `a` hands out; the free list ends as if one allocation had happened |
| Pools.PoolAllocatorsInterchange | include/hpc/core/pool_allocator.hpp:38-56 | a rebound copy compares equal (and not unequal) to its source; an allocator over another pool compares unequal; a block allocated through one, freed through its rebound copy, comes back on the next allocation |
| Pools.PoolBasic | tests/test_pool_allocator.cpp:5-23 | a pool of four int blocks gives four distinct non-null blocks, then null; after the second is freed the next allocation returns that same block |

## Left out

- Concurrency: the atomics, memory orderings, cache-line padding and the multi-threaded MPMC test (tests/test_mpmc_ring_buffer.cpp beyond the single-threaded and batch cases). Every operation runs alone in the model, so linearisability under contention is not proved.
- Mpmc.MpmcRingBuffer.TryPush: the cursors are unbounded naturals. A 64-bit cursor wrap after 2^64 operations and the `intptr_t` cast of the sequence difference are not modelled.
- Mpmc.MpmcRingBuffer.TryPop: a lost compare-and-swap is modelled only as a spurious failure that retries (the `spuriousFailures` parameter). A CAS lost to another thread cannot happen in a sequential model.
- Object lifetime: placement new, element destruction, the destructors and `::operator delete` of the ring buffers, the arena and the pool. Slots hold values directly, and `try_emplace`'s forwarding of constructor arguments is a push of the constructed value.
- `::operator new` failure in the ring-buffer and pool constructors (bad_alloc), and the arena's nothrow allocation result, which is a constructor parameter.
- Pools.FixedPool.constructor: the product `element_size_ * element_count_` is not checked for 64-bit overflow.
- `sizeof(T)` and `alignof(T)` are parameters of the allocator adaptors. `Spsc.SpscRingBuffer.ElementAt` returns a slot index rather than the byte address `storage_ + pos`.
- `arena::data()` and the raw `storage_` pointers are not modelled.
- Spsc.SpscRingBuffer.constructor: requires a capacity below 2^63. For 2^63 <= capacity < 2^64 - 1, `round_up_to_power_of_two(capacity + 1)` returns 0 (the `n + 1` at include/hpc/core/ring_buffer.hpp:162 wraps), so the storage size is 0 and the mask wraps. For capacity = 2^64 - 1, `capacity + 1` itself wraps to 0, `round_up_to_power_of_two(0)` returns 2 (:157) and the buffer gets 2 slots with `capacity()` 1. Neither range is modelled.
- Mpmc.MpmcRingBuffer.constructor: requires a request of at most 2^63, for the same reason.
- Arenas.Arena.Allocate: the alignment is always passed explicitly; the default argument `alignof(std::max_align_t)` of include/hpc/core/arena_allocator.hpp:23 is not modelled.
- Arenas.Arena.Allocate: requires a power-of-two alignment and `ptr + alignment <= 2^64`. Outside those, `align_ptr` is not a rounding and the model does not describe it. The sum `aligned + bytes` is taken without a 64-bit wrap.
- Pools.FixedPool.Deallocate: requires a live block of this pool (or null). A foreign pointer or a double free corrupts the source's list and is not modelled.
- Pools.PoolAllocator.Deallocate: the same requirement as the pool's `deallocate`.
- The spinlock, shared-memory transport, NUMA and huge-page helpers and the benchmarks are outside this core.

## Findings

| source | as written | input that shows it | evidently intended | confidence | as-written member | corrected member |
|---|---|---|---|---|---|---|
| include/hpc/core/ring_buffer.hpp:52 | the full test compares `distance(tail, head)`, the unmasked 64-bit difference, with `capacity()`; once the cursors have wrapped, a buffer holding `capacity()` elements is not seen as full | a capacity-1 buffer (2 slots): push, pop, push; it now holds one element with tail 0, head 1; a third push is accepted, tail lands on head and both elements are lost | compare `distance(tail, head) & mask_` (the occupancy) with `capacity()` | not executed | Spsc.SpscRingBuffer.TryPush, Spsc.WrappedOverfill, Spsc.FullTestMissesWrap | Spsc.SpscRingBuffer.TryPushMasked, Spsc.MaskedDistance |
| include/hpc/core/arena_allocator.hpp:54 | `n * sizeof(T)` is computed in `std::size_t` without an overflow check, so a huge count wraps to a small byte count | n = 2^61 elements of 8 bytes in a 64-byte arena: the byte count is 0, and the allocator returns a block for 2^64 bytes | refuse (throw `std::bad_alloc`) when n exceeds `SIZE_MAX / sizeof(T)` | not executed | Arenas.ArenaAllocator.Allocate, Arenas.OverflowingRequest | Arenas.ArenaAllocator.AllocateChecked |
