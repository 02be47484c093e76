# Binary heap of opaque handles, modelled in Dafny

The library is a generic binary heap, used as a priority queue, over opaque
element handles (`void *`). A record `struct BHeap` holds `count` handles in
slots 1..count of a storage array of `alloc` slots, and a comparator
`compare(a, b)`. The comparator's truth value means "a belongs above b".
The record's storage is indexed from 1: the C pointer sits one slot before
the allocation.

On top of two array algorithms the library offers insertion, batch
insertion, extraction of the root, an in-place pass over an array
(`bheap_sort`) and the construction of a heap from an array:

- `do_insert` sifts a handle up into a hole;
- `do_shift` sifts a handle down from a hole.

Model layout:

- `utils.dfy` (module `Utils`) has two parts:
  - `next_pow_two`, written with integer arithmetic on a 64-bit word; `__builtin_clzl(x)` becomes the word width minus the bit length of x;
  - `mem_swap`, over byte arrays: either two regions at the start of two distinct buffers (`MemSwap`), or two non-overlapping regions of one buffer (`MemSwapRegions`).
- `heap_order.dfy` (module `HeapOrder`) defines the ordering notions:
  - the comparator as a predicate `above`, required to be a strict weak order;
  - subtree membership of slots;
  - the heap invariant "no child among slots 2..n belongs above its parent";
  - the permutation lemmas the algorithms share.
- `sift.dfy` (module `Sift`) has `do_insert`, `do_shift` and `bheap_sort`, as methods over an `array`:
  - slot k is `a[k - 1]`;
  - each tail-recursive call of the source is one loop iteration;
  - each algorithm is proved against a predicate (`SiftUpPost`, `ShiftPost`, `SortInv`) over the sequence of slot values;
  - `do_insert` is modelled by `Sift.DoInsert`. Its loop is the helper `Sift.SiftUp`, which states the same result over the whole storage; `DoInsert` restates it by prefix. `do_shift` is `Sift.DoShift` and `bheap_sort` is `Sift.BHeapSort`.
- `bheap.dfy` (module `BinaryHeap`) has the record `BHeap` as a class with fields `count`, `alloc` and `nodes`:
  - its operations are init, init from array, clear, resize, insert, extract and batch insertion;
  - `array_into_bheap` is a method beside the class;
  - the `for` loop of `bheap_insert_array` (bheap/bheap.c:46-47) is modelled by `BinaryHeap.InsertEach`. Its loop is the helper `BinaryHeap.SiftUpEach`, whose result `InsertEach` states explicitly. The rest of `bheap_insert_array` is `BHeap.InsertArray` (corrected index) or `BHeap.InsertArrayAsWritten`.

Handles are values of a type parameter `T` with equality. The comparator is
a function value that the model takes as given. That it is a strict weak order
is a precondition, not something the model checks.

Notes on the model:

- `init_bheap_from_array` and `bheap_insert_array` can leave `count == alloc`:
  - `init_bheap_from_array` always does (bheap/bheap.h:43-44);
  - `bheap_insert_array` does in two cases (bheap/bheap.c:38-39, 49). Either `count + length == alloc`, so no resize happens; or the storage was resized and `count + length` already was a power of two, which `next_pow_two` keeps (`Utils.NextPowTwoOfPow2`).
- `bheap_insert` then writes past the allocation, so `BHeap.Insert` requires `count < alloc`. Insert itself restores `count < alloc` by doubling.
- When a lone left child belongs above `next`, `do_shift` moves the child up and writes `next` into the child's slot in one step (bheap/bheap.c:130-133). The model does this in two iterations of its loop: `Sift.ShiftLevel` first promotes the child, then writes `next` at the leaf. Both give the same array.

## Model

| member | source | states |
|---|---|---|
| Utils.CountLeadingZeros | utils/utils.h:58 | for a nonzero 64-bit word, the count of leading zeros r is below 64 and locates the word: 2^(63-r) <= x < 2^(64-r) |
| Utils.NextPowTwoShift | utils/utils.h:56-59 | for 2 <= num <= 2^63 the shift amount 64 - clz(num - 1) lies in 1..63, so the C shift is defined, and the result is 2^BitLength(num - 1) |
| Utils.NextPowTwo | utils/utils.h:56-59 | `1 << (64 - clz(num - 1))` for 2 <= num <= 2^63: the result is a power of two, num <= r and r / 2 < num, and r stays within 2^63 |
| Utils.NextPowTwoIsLeast | utils/utils.h:56-59 | every power of two that covers num is at least next_pow_two(num) |
| Utils.NextPowTwoOfPow2 | utils/utils.h:56-59 | a power of two is rounded to itself |
| Utils.SwapPrefixTwice | utils/utils.h:61-69 | exchanging the same width-byte prefixes of two buffers twice gives back both buffers |
| Utils.MemCopy | utils/utils.h:66-68 | memcpy between distinct buffers: the destination's first width bytes become the source's, the rest of the destination is unchanged |
| Utils.MemSwap | utils/utils.h:61-69 | for distinct buffers and width >= 1, x ends up with y's old first width bytes and y with x's, the rest of both unchanged |
| Utils.SwapRegionsTwice | utils/utils.h:61-69 | exchanging the same two non-overlapping regions of one buffer twice gives back the buffer |
| Utils.MemSwapRegions | utils/utils.h:61-69 | for two non-overlapping regions of width >= 1 bytes at i and j of one buffer, each ends up with the other's old bytes; every byte outside both is unchanged |
| HeapOrder.RootDominates | bheap/bheap.c:89-90 | in heap-ordered slots 1..n, no slot's handle belongs above the root's |
| HeapOrder.RootDominatesAll | bheap/bheap.c:89-97 | the same for every handle held in slots 1..n |
| Sift.SiftUpLevel | bheap/bheap.c:60-75 | one level of do_insert at hole j: at slot 1, or when the parent belongs above next, next is written at j and the climb stops; otherwise the parent's handle moves down into j |
| Sift.SiftUp | bheap/bheap.c:54-77 | do_insert from slot i, with slots 1..i-1 heap-ordered: slots 1..i end heap-ordered; the whole storage permutes the old one with slot i replaced by next, so the old slot i is never kept; only slots on the path i, i/2, ..., 1 change |
| Sift.DoInsert | bheap/bheap.c:54-77 | the same, by prefix: slots 1..i heap-ordered, holding the old slots 1..i-1 plus one copy of next; every slot after i unchanged |
| Sift.ShiftLevel | bheap/bheap.c:108-182 | one level of do_shift at hole j within base, covering each of the source's cases. Either next is written at j, when no child within base belongs above it; or the chosen child c (2j or 2j+1) moves up into j. Neither next nor the other child belongs above that child. |
| Sift.DoShift | bheap/bheap.c:100-183 | precondition: the edges below slot i within 1..base are ordered. Afterwards the subtree of i within 1..base is heap-ordered, the storage permutes the old one with slot i replaced by next, and nothing outside slot i and its subtree within 1..base changes |
| Sift.SortLevel | bheap/bheap.c:225-227 | one step of bheap_sort: the value of slot i+1 is sifted down from slot i. The ordered region then extends to edges whose parent is slot i or later, and every slot from i to length holds the input's last handle, since the sifted value and every value the sift moves are copies of it |
| Sift.BHeapSort | bheap/bheap.c:215-229 | bheap_sort as written: slots 1..length end heap-ordered; length <= 1 leaves the array untouched; for length >= 1 every slot 1..length ends up holding the input's last handle, whatever the comparator (so for length >= 2 every other input value is gone); slots after length are unchanged |
| Sift.SortPairCollapses | bheap/bheap.c:215-229 | bheap_sort turns [x, y] into [y, y], which for x != y is not a permutation of the input |
| Sift.Heapify | bheap/bheap.c:215-229 | the corrected pass: slots 1..length end heap-ordered and are a permutation of the input's, slots after length unchanged |
| BinaryHeap.ExtractStep | bheap/bheap.c:91-95 | sifting the last of count+1 heap-ordered handles down from the root over count slots leaves slots 1..count heap-ordered, holding the old handles minus one copy of the old root |
| BinaryHeap.SiftUpEach | bheap/bheap.c:46-47 | the loop of bheap_insert_array from offset n: after all handles, slots 1..n+length are heap-ordered and hold the old slots 1..n plus the handles, and later slots are unchanged |
| BinaryHeap.InsertEach | bheap/bheap.c:46-47 | the same in explicit form: heap order over 1..n+length, the multiset of the old prefix plus the handles, the suffix unchanged |
| BinaryHeap.BHeap.InitSized | bheap/bheap.h:13-30 | a new heap with count 0, alloc size, fresh storage of size slots and the given comparator; it is a heap with no handles |
| BinaryHeap.BHeap.FromArray | bheap/bheap.h:32-48 | the record adopts the caller's array itself as storage, with count = alloc = length, and holds its first length handles in the same order; heap order is not established |
| BinaryHeap.BHeap.Clear | bheap/bheap.h:57-60 | count becomes 0, alloc and storage are unchanged, and the record is an empty heap |
| BinaryHeap.BHeap.Resize | bheap/bheap.h:68-80 | alloc becomes size in fresh storage, count is unchanged, and the first min(old alloc, size) slots keep their handles; a heap that still fits stays the same heap |
| BinaryHeap.BHeap.Insert | bheap/bheap.h:96-105 | requires count < alloc. Count grows by one, heap order is kept, and exactly one copy of next is added. Alloc doubles, with fresh storage, when the heap became full, and is unchanged otherwise; count < alloc holds again |
| BinaryHeap.BHeap.Extract | bheap/bheap.c:84-98 | empty heap: None and nothing changes. Otherwise: the old root is returned and count drops by one; no handle held belongs above the returned one; the rest is the old contents minus one copy of it, still heap-ordered |
| BinaryHeap.BHeap.Reserve | bheap/bheap.c:35-39 | when alloc < total, the storage grows to next_pow_two(total); otherwise it is untouched. Either way total <= alloc afterwards and the held handles stay in place |
| BinaryHeap.BHeap.InsertArray | bheap/bheap.c:31-50 | the corrected batch insertion. Count becomes old count + length and alloc covers it, resized to next_pow_two(count + length) only when alloc was too small. Heap order is kept and the contents gain exactly the handles |
| BinaryHeap.BHeap.InsertArrayAsWritten | bheap/bheap.c:31-50 | the literal index count + i. Count becomes old count + length and the record stays valid (count <= alloc <= storage length), but only slots 1..count-1 are heap-ordered. They hold the old slots 1..count-1 plus the handles: for length >= 1 the old last handle's slot is overwritten, so that handle is gone unless another slot holds the same value. The storage grows to next_pow_two(count) exactly when alloc was too small and is kept otherwise. Without a resize, slot count keeps its old content: it is counted but never written (after a resize it holds the fresh storage's initial value, which the model does not name) |
| BinaryHeap.CopyPrefix | bheap/bheap.h:148-153 | fresh storage holding the input's first length handles |
| BinaryHeap.ArrayIntoBHeap | bheap/bheap.h:142-159 | corrected: a fresh heap over fresh storage with count = alloc = length, heap-ordered, holding exactly the input's first length handles; the caller's array is not modified |
| BinaryHeap.ArrayIntoBHeapAsWritten | bheap/bheap.h:142-159 | as written: a fresh heap-ordered heap with count = alloc = length; every slot holds the input's last handle, so for length >= 2 all other input handles are gone; for length <= 1 it holds the input unchanged |
| BinaryHeap.LiteralIndexLosesElement | bheap/bheap.c:46-47 | on a heap holding x with room for two, inserting [y] with the literal index leaves slots [y, stale], with stale what slot 2 held before: x was overwritten, and when x differs from both y and stale it is no longer held |
| BinaryHeap.CorrectedIndexKeepsElement | bheap/bheap.c:46-47 | the same call with the corrected index holds exactly x and y |

## Left out

- `print_bheap` (bheap/bheap.c:190-208) is output to stdout only.
- `free_bheap` (bheap/bheap.h:62-66) is deallocation only; Dafny storage is garbage-collected.
- `init_bheap` (bheap/bheap.h:50-54) calls `init_sized_bheap` with its two arguments in swapped order. The evident intent, a heap of size 1, is `BHeap.InitSized(1, above)`.
- The allocation macros `HANDLE_MALLOC` and `EXIT_ON_FAILURE`, and the `NULL` check after `realloc`: allocation is modelled as a fresh array that always succeeds.
- The pointer-offset sentinel (`nodes - 1`, `&array[-1]`) is modelled as the index shift "slot k is `nodes[k - 1]`", not as an out-of-bounds pointer.
- `array_into_bheap`'s `width` argument and byte-level `memcpy` of handles are modelled at handle level: one handle per slot (`CopyPrefix`). `Utils.MemCopy`, `Utils.MemSwap` and `Utils.MemSwapRegions` model the byte-level copies of `utils.h`.
- `Utils.MemSwap` takes regions at the start of two distinct buffers, and `Utils.MemSwapRegions` two regions at offsets of one buffer. Regions at offsets inside two distinct buffers have no member of their own.
- The comparator is a function value, not a function pointer, and its strict-weak-order property is a precondition.
- `size_t` overflow is not modelled for `count + length`, `alloc * 2` or `width * length`: counts are unbounded naturals. `next_pow_two`'s own 64-bit bounds are modelled.
- The items of `bheap_insert_array` are a sequence of handles, not a C array, so any aliasing between that array and the heap's storage is not modelled.
- Recursion: the tail recursion of `do_insert` and `do_shift` becomes a loop, one iteration per call.
- `BHeap.InsertArrayAsWritten`: requires count >= 1. With an empty heap the first `do_insert` targets slot 0. It reads `nodes[0]`, the slot before the storage (bheap/bheap.h:23, bheap/bheap.c:67-68), which is undefined behaviour. If `compare` then says that handle belongs above `next`, `next` is written before the storage and the call returns (bheap/bheap.c:70-72), so slot 1 is never filled. Otherwise the call recurses on slot 0 forever (bheap/bheap.c:75-76). The model describes neither run.

## Findings

| source | as written | input that shows it | evidently intended | confidence | as-written member | corrected member |
|---|---|---|---|---|---|---|
| bheap/bheap.c:224-227 | each step reads slot i, decrements i and sifts the value down from slot i, overwriting slot i's own value without keeping it | `bheap_sort` on [x, y] with x != y gives [y, y], and on any input of length >= 1 every slot ends up holding the input's last handle, e.g. [a, b, c] gives [c, c, c] | a heap-ordered permutation of the input: decrement i first, then sift slot i's own value down from slot i (bottom-up heap construction) | high; not executed | Sift.SortPairCollapses | Sift.Heapify |
| bheap/bheap.c:46-47 | handle i is sifted up into slot count + i | a heap holding x with room for two, then inserting [y], holds [y, stale], with stale the earlier content of slot 2: slot 2 is counted but never written, and x is lost unless it equals y or stale | handle i goes into the next free slot, count + i + 1 | high; not executed | BinaryHeap.LiteralIndexLosesElement | BinaryHeap.CorrectedIndexKeepsElement |
