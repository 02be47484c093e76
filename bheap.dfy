/** The heap record `struct BHeap` and its operations.

    The record holds `count` handles in slots 1..count of a storage array of
    `alloc` slots; slot k is nodes[k - 1] (the C code keeps `nodes` one
    slot before the allocation so that it can index from 1). The comparator
    is the predicate `above`: `above(x, y)` when x belongs above y. */
module BinaryHeap {
  import opened Utils
  import opened HeapOrder
  import opened Sift

  datatype Option<T> = None | Some(value: T)

  /** Sifting the last of count + 1 heap-ordered slots down from the root
      over count slots leaves them heap-ordered and holding the old ones but
      the old root. */
  lemma {:induction false} ExtractStep<T(!new)>(s: seq<T>, t: seq<T>, count: nat, above: (T, T) -> bool)
    requires count < |s|
    requires ShiftPost(t, s, s[count], 1, count, above)
    ensures HeapOrdered(t, count, above)
    ensures multiset(t[..count]) + multiset{s[0]} == multiset(s[..count + 1])
  {
    forall k | 2 <= k <= count
      ensures !above(t[k - 1], t[k / 2 - 1])
    {
      InRootSubtree(k / 2);
    }
    if count == 0 {
      assert s[..1] == [s[0]];
    } else {
      ExtractedContents(s, t, count, above);
    }
  }

  lemma {:induction false} ExtractedContents<T(!new)>(s: seq<T>, t: seq<T>, count: nat, above: (T, T) -> bool)
    requires 1 <= count < |s|
    requires ShiftPost(t, s, s[count], 1, count, above)
    ensures multiset(t[..count]) + multiset{s[0]} == multiset(s[..count + 1])
  {
    var u := s[0 := s[count]];
    forall k | 0 <= k < |t| && !(0 <= k < count)
      ensures t[k] == u[k]
    {
      var m := k + 1;
      assert t[m - 1] == s[m - 1];
    }
    MultisetOfSlice(t, u, 0, count);
    assert u[..count] == [s[count]] + s[1..count];
    assert s[..count + 1] == [s[0]] + s[1..count] + [s[count]];
  }

  /** After i iterations of InsertEach over storage that was start: slots
      1..n + i are heap-ordered and hold the old slots 1..n and the first i
      handles, and every later slot is as it was. */
  ghost predicate InsertedSoFar<T>(cur: seq<T>, start: seq<T>, items: seq<T>, n: nat, i: nat, above: (T, T) -> bool) {
    && i <= |items| && |cur| == |start| && n + i <= |cur|
    && HeapOrdered(cur, n + i, above)
    && multiset(cur[..n + i]) == multiset(start[..n]) + multiset(items[..i])
    && cur[n + i..] == start[n + i..]
  }

  /** One iteration of InsertEach: the handles inserted so far grow by
      items[i]. */
  lemma {:induction false} InsertEachStep<T>(start: seq<T>, before: seq<T>, after: seq<T>, items: seq<T>, n: nat, i: nat, above: (T, T) -> bool)
    requires i < |items| && InsertedSoFar(before, start, items, n, i, above) && |after| == |before|
    requires HeapOrdered(after, n + i + 1, above)
    requires multiset(after[..n + i + 1]) == multiset(before[..n + i]) + multiset{items[i]}
    requires after[n + i + 1..] == before[n + i + 1..]
    ensures InsertedSoFar(after, start, items, n, i + 1, above)
  {
    assert items[..i + 1] == items[..i] + [items[i]];
    assert before[n + i + 1..] == before[n + i..][1..];
  }

  /** The loop of `bheap_insert_array`: handle i of items is sifted up into
      slot n + i + 1, over storage whose slots 1..n are heap-ordered. */
  method SiftUpEach<T(!new)>(nodes: array<T>, items: seq<T>, n: nat, above: (T, T) -> bool)
    requires StrictWeakOrder(above)
    requires n + |items| <= nodes.Length
    requires HeapOrdered(nodes[..], n, above)
    modifies nodes
    ensures InsertedSoFar(nodes[..], old(nodes[..]), items, n, |items|, above)
  {
    ghost var start := nodes[..];
    var i := 0;
    while i < |items|
      invariant InsertedSoFar(nodes[..], start, items, n, i, above)
    {
      ghost var before := nodes[..];
      DoInsert(nodes, items[i], n + i + 1, above);
      InsertEachStep(start, before, nodes[..], items, n, i, above);
      i := i + 1;
    }
  }

  /** The same loop, stated over the first n + |items| slots: they are
      heap-ordered and hold the old slots 1..n and every handle of items,
      and no later slot is written. */
  method InsertEach<T(!new)>(nodes: array<T>, items: seq<T>, n: nat, above: (T, T) -> bool)
    requires StrictWeakOrder(above)
    requires n + |items| <= nodes.Length
    requires HeapOrdered(nodes[..], n, above)
    modifies nodes
    ensures HeapOrdered(nodes[..], n + |items|, above)
    ensures multiset(nodes[..n + |items|]) == multiset(old(nodes[..n])) + multiset(items)
    ensures nodes[n + |items|..] == old(nodes[n + |items|..])
  {
    SiftUpEach(nodes, items, n, above);
    assert items[..|items|] == items;
  }

  class BHeap<T(0,!new)> {
    var count: nat
    var alloc: nat
    var nodes: array<T>
    const above: (T, T) -> bool

    /** The slots in use lie within the allocation, and the comparator is a
        strict weak order. */
    ghost predicate Valid()
      reads this, nodes
    {
      count <= alloc <= nodes.Length && StrictWeakOrder(above)
    }

    /** A valid record whose slots 1..count are heap-ordered. */
    ghost predicate IsHeap()
      reads this, nodes
    {
      Valid() && HeapOrdered(nodes[..], count, above)
    }

    /** The handles held, slot 1 first. */
    ghost function Contents(): (r: seq<T>)
      reads this, nodes
      requires count <= nodes.Length
    {
      nodes[..count]
    }

    /** `init_sized_bheap(size, compare)`: an empty heap with room for size
        handles. */
    constructor InitSized(size: nat, above: (T, T) -> bool)
      requires StrictWeakOrder(above)
      ensures count == 0 && alloc == size && this.above == above
      ensures fresh(nodes) && nodes.Length == size
      ensures IsHeap() && Contents() == []
    {
      count := 0;
      alloc := size;
      nodes := new T[size];
      this.above := above;
    }

    /** `init_bheap_from_array(array, length, compare)`: the record adopts
        the caller's array as its storage, without copying and without
        ordering it, and counts it full. */
    constructor FromArray(items: array<T>, length: nat, above: (T, T) -> bool)
      requires StrictWeakOrder(above)
      requires length <= items.Length
      ensures nodes == items && count == length && alloc == length && this.above == above
      ensures Valid() && Contents() == items[..length]
    {
      nodes := items;
      count := length;
      alloc := length;
      this.above := above;
    }

    /** `clear_bheap(heap)`: forget every handle, keep the storage. */
    method Clear()
      requires Valid()
      modifies this
      ensures count == 0 && alloc == old(alloc) && nodes == old(nodes)
      ensures IsHeap() && Contents() == []
    {
      count := 0;
    }

    /** `resize_bheap(heap, size)`: reallocate the storage to size slots.
        The first min(alloc, size) slots keep their handles; `count` is not
        adjusted, so shrinking below it leaves the record invalid. */
    method Resize(size: nat)
      requires alloc <= nodes.Length
      modifies this
      ensures alloc == size && count == old(count)
      ensures fresh(nodes) && nodes.Length == size
      ensures forall k :: 0 <= k < old(alloc) && k < size ==> nodes[k] == old(nodes[k])
      ensures old(IsHeap()) && count <= size ==> IsHeap() && Contents() == old(Contents())
    {
      var grown := new T[size];
      forall k | 0 <= k < alloc && k < size {
        grown[k] := nodes[k];
      }
      nodes := grown;
      alloc := size;
    }

    /** `bheap_insert(heap, next)`: count the new slot, sift `next` up into
        it, and double the storage once it is full, so that a free slot is
        always left for the next insertion. */
    method Insert(next: T)
      requires IsHeap() && count < alloc
      modifies this, nodes
      ensures count == old(count) + 1 && count < alloc
      ensures IsHeap()
      ensures multiset(Contents()) == multiset(old(Contents())) + multiset{next}
      ensures count == old(alloc) ==> alloc == 2 * old(alloc) && fresh(nodes)
      ensures count < old(alloc) ==> alloc == old(alloc) && nodes == old(nodes)
    {
      ghost var before := nodes[..];
      count := count + 1;
      DoInsert(nodes, next, count, above);
      if count == alloc {
        Resize(alloc * 2);
      }
    }

    /** `bheap_extract(heap)`: nothing (NULL in the source) when the heap is
        empty; otherwise the root, which no held handle belongs above, is
        returned, the last handle takes its place and is sifted down. */
    method Extract() returns (r: Option<T>)
      requires IsHeap()
      modifies this, nodes
      ensures nodes == old(nodes) && alloc == old(alloc)
      ensures old(count) == 0 ==> r == None && count == 0 && nodes[..] == old(nodes[..])
      ensures old(count) > 0 ==> r == Some(old(nodes[0])) && count == old(count) - 1
      ensures old(count) > 0 ==> forall x :: x in old(Contents()) ==> !above(x, r.value)
      ensures old(count) > 0 ==> multiset(Contents()) + multiset{r.value} == multiset(old(Contents()))
      ensures IsHeap()
    {
      if count == 0 {
        return None;
      }
      ghost var before := nodes[..];
      RootDominatesAll(before, count, above);
      var root := nodes[0];
      var base := nodes[count - 1];
      count := count - 1;
      DoShift(nodes, base, 1, count, above);
      ExtractStep(before, nodes[..], count, above);
      r := Some(root);
    }

    /** The growth step of `bheap_insert_array`: when fewer than total
        slots are allocated, the storage is resized to the next power of two
        at or above total. Either way the handles held stay where they are. */
    method Reserve(total: nat)
      requires IsHeap() && count <= total
      requires alloc < total ==> 2 <= total <= Pow2(SizeBits - 1)
      modifies this
      ensures count == old(count) && IsHeap() && total <= alloc
      ensures nodes[..count] == old(nodes[..count])
      ensures old(alloc) < total ==> alloc == NextPowTwo(total) && fresh(nodes)
      ensures total <= old(alloc) ==> alloc == old(alloc) && nodes == old(nodes) && nodes[..] == old(nodes[..])
    {
      if alloc < total {
        Resize(NextPowTwo(total));
      }
    }

    /** `bheap_insert_array(heap, array, length)` with each handle sifted up
        into the next free slot, count + i + 1. When the handles do not fit,
        the storage first grows to the next power of two that holds them;
        rounding 1 up, or anything above 2^63, is undefined in the source's
        `next_pow_two`, hence the precondition. */
    method InsertArray(items: seq<T>)
      requires IsHeap()
      requires alloc < count + |items| ==> 2 <= count + |items| <= Pow2(SizeBits - 1)
      modifies this, nodes
      ensures count == old(count) + |items|
      ensures IsHeap() && count <= alloc
      ensures multiset(Contents()) == multiset(old(Contents())) + multiset(items)
      ensures old(alloc) < count ==> alloc == NextPowTwo(count) && fresh(nodes)
      ensures count <= old(alloc) ==> alloc == old(alloc) && nodes == old(nodes)
    {
      var nextCount := count + |items|;
      Reserve(nextCount);
      InsertEach(nodes, items, count, above);
      count := nextCount;
    }

    /** `bheap_insert_array(heap, array, length)` as written: handle i is
        sifted up into slot count + i, so the first one overwrites the last
        handle held, and slot count + length, although counted, is never
        written. With no handle held the first sift reads the slot before the
        storage, which is undefined; hence count >= 1. */
    method InsertArrayAsWritten(items: seq<T>)
      requires IsHeap() && count >= 1
      requires alloc < count + |items| ==> count + |items| <= Pow2(SizeBits - 1)
      modifies this, nodes
      ensures count == old(count) + |items| && Valid()
      ensures HeapOrdered(nodes[..], count - 1, above)
      ensures multiset(nodes[..count - 1]) == multiset(old(nodes[..count - 1])) + multiset(items)
      ensures old(alloc) < count ==> alloc == NextPowTwo(count) && fresh(nodes)
      ensures count <= old(alloc) ==> alloc == old(alloc) && nodes == old(nodes)
      ensures count <= old(alloc) ==> nodes[count - 1] == old(nodes[..])[count - 1]
    {
      var nextCount := count + |items|;
      ghost var held := nodes[..count - 1];
      Reserve(nextCount);
      assert nodes[..count - 1] == nodes[..count][..count - 1] == held;
      InsertEach(nodes, items, count - 1, above);
      count := nextCount;
    }
  }

  /** The `memcpy` of `array_into_bheap`: the first length handles of
      items in fresh storage of length slots. */
  method CopyPrefix<T(0)>(items: array<T>, length: nat) returns (copy: array<T>)
    requires length <= items.Length
    ensures fresh(copy) && copy[..] == items[..length]
  {
    copy := new T[length];
    forall k | 0 <= k < length {
      copy[k] := items[k];
    }
  }

  /** `array_into_bheap(array, width, length, compare)` with the corrected
      sort (Sift.Heapify): copy the first length handles into fresh storage,
      order the copy into a heap and adopt it as a full heap. The heap holds
      exactly the input's handles; the caller's array is left alone. */
  method ArrayIntoBHeap<T(0,!new)>(items: array<T>, length: nat, above: (T, T) -> bool) returns (h: BHeap<T>)
    requires StrictWeakOrder(above)
    requires length <= items.Length
    ensures fresh(h) && fresh(h.nodes) && h.above == above
    ensures h.count == length && h.alloc == length && h.IsHeap()
    ensures multiset(h.Contents()) == multiset(items[..length])
  {
    var copy := CopyPrefix(items, length);
    assert copy[..length] == items[..length];
    Heapify(copy, length, above);
    h := new BHeap.FromArray(copy, length, above);
  }

  /** `array_into_bheap(array, width, length, compare)` as written: the copy
      goes through `bheap_sort` (Sift.BHeapSort), so every slot of the heap
      holds the input's last handle. */
  method ArrayIntoBHeapAsWritten<T(0,!new)>(items: array<T>, length: nat, above: (T, T) -> bool) returns (h: BHeap<T>)
    requires StrictWeakOrder(above)
    requires length <= items.Length
    ensures fresh(h) && fresh(h.nodes) && h.above == above
    ensures h.count == length && h.alloc == length && h.IsHeap()
    ensures length <= 1 ==> h.Contents() == items[..length]
    ensures length >= 1 ==> forall k :: 0 <= k < length ==> h.nodes[k] == items[length - 1]
    ensures length >= 2 ==> forall x :: x in h.Contents() ==> x in items[1..length]
  {
    var copy := CopyPrefix(items, length);
    BHeapSort(copy, length, above);
    h := new BHeap.FromArray(copy, length, above);
    assert h.Contents() == copy[..];
  }

  /** The literal index of `bheap_insert_array` on a heap holding x with
      room for two handles: inserting y leaves y in slot 1, where x was, and
      counts slot 2, which still holds the storage's earlier content. */
  method LiteralIndexLosesElement<T(0,!new)>(x: T, y: T, above: (T, T) -> bool) returns (stale: T, live: seq<T>)
    requires StrictWeakOrder(above)
    ensures live == [y, stale]
    ensures x != y && x != stale ==> x !in live
  {
    var h := new BHeap.InitSized(2, above);
    h.Insert(x);
    stale := h.nodes[1];
    h.InsertArrayAsWritten([y]);
    live := h.nodes[..h.count];
    assert multiset(h.nodes[..1]) == multiset{y};
  }

  /** The same call with the corrected index keeps both handles. */
  method CorrectedIndexKeepsElement<T(0,!new)>(x: T, y: T, above: (T, T) -> bool) returns (live: seq<T>)
    requires StrictWeakOrder(above)
    ensures multiset(live) == multiset{x, y}
  {
    var h := new BHeap.InitSized(2, above);
    h.Insert(x);
    h.InsertArray([y]);
    live := h.nodes[..h.count];
  }
}
