/** The array algorithms of the heap: sift-up (`do_insert`), sift-down
    (`do_shift`) and the in-place pass `bheap_sort`. Each works on a storage
    array whose slot k (numbered from 1) is a[k - 1], and fills a "hole" at
    one slot with a given handle. The source writes them as tail recursion;
    here each recursion step is one iteration of a loop, and the reasoning
    about one step is a lemma over the sequence of slot values. */
module Sift {
  import opened HeapOrder

  /** Moving the value at index b to index a and writing v at b permutes
      the sequence with v written at a. */
  lemma {:induction false} MoveIntoHole<T>(s: seq<T>, a: nat, b: nat, v: T)
    requires a < |s| && b < |s| && a != b
    ensures multiset(s[a := s[b]][b := v]) == multiset(s[a := v])
  {
    var x := s[a := s[b]][b := v];
    var y := s[a := v];
    assert x == y[a := y[b]][b := y[a]];
    assert multiset(x)[s[b] := 0] == multiset(y)[s[b] := 0];
  }

  // ---------------------------------------------------------------- sift-up

  /** What `do_insert(nodes, next, i)` promises: slots 1..i heap-ordered, the
      slots a permutation of the old ones with slot i replaced by `next`, and
      only slots on the path i, i/2, ..., 1 written. */
  ghost predicate SiftUpPost<T(!new)>(s: seq<T>, init: seq<T>, next: T, i: nat, above: (T, T) -> bool) {
    && |s| == |init| && 1 <= i <= |s|
    && HeapOrdered(s, i, above)
    && multiset(s) == multiset(init[i - 1 := next])
    && (forall k :: 1 <= k <= |s| && !InSubtree(i, k) ==> s[k - 1] == init[k - 1])
  }

  /** The state of sift-up with the hole at slot j, an ancestor of i: every
      edge of 1..i away from the hole is ordered, the children of the hole
      lie below `next` and below the hole's parent. (That the slots with
      `next` written into the hole permute the old ones is kept beside it,
      in the loop of DoInsert.) */
  ghost predicate SiftUpInv<T(!new)>(s: seq<T>, init: seq<T>, next: T, i: nat, j: nat, above: (T, T) -> bool) {
    && |s| == |init| && 1 <= j <= i <= |s| && InSubtree(i, j)
    && (forall k :: 1 <= k <= |s| && !InSubtree(i, k) ==> s[k - 1] == init[k - 1])
    && (forall k :: 2 <= k <= i && k != j && k / 2 != j ==> !above(s[k - 1], s[k / 2 - 1]))
    && (forall k :: 2 <= k <= i && k / 2 == j ==> !above(s[k - 1], next))
    && (j > 1 ==> forall k :: 2 <= k <= i && k / 2 == j ==> !above(s[k - 1], s[j / 2 - 1]))
  }

  lemma {:induction false} SiftUpInit<T(!new)>(s: seq<T>, next: T, i: nat, above: (T, T) -> bool)
    requires 1 <= i <= |s| && HeapOrdered(s, i - 1, above)
    ensures SiftUpInv(s, s, next, i, i, above)
  {
  }

  /** Sifting `next` up into slot n + 1 of a storage whose slots 1..n are
      heap-ordered adds one copy of `next` to the first n + 1 slots, keeps
      them heap-ordered and leaves every later slot alone. */
  lemma {:induction false} SiftUpPrefix<T(!new)>(before: seq<T>, after: seq<T>, next: T, n: nat, above: (T, T) -> bool)
    requires n < |before|
    requires SiftUpPost(after, before, next, n + 1, above)
    ensures HeapOrdered(after, n + 1, above)
    ensures multiset(after[..n + 1]) == multiset(before[..n]) + multiset{next}
    ensures after[n + 1..] == before[n + 1..]
  {
    forall k | n < k < |after|
      ensures after[k] == before[k]
    {
      var m := k + 1;
      assert !InSubtree(n + 1, m);
      assert after[m - 1] == before[m - 1];
    }
    InsertedPrefix(after, before, n, next);
  }

  /** Writing `next` into the hole finishes the climb once the hole is the
      root or its parent belongs above `next`. */
  lemma {:induction false} SiftUpPlace<T(!new)>(s: seq<T>, init: seq<T>, next: T, i: nat, j: nat, above: (T, T) -> bool)
    requires StrictWeakOrder(above) && SiftUpInv(s, init, next, i, j, above)
    requires multiset(s[j - 1 := next]) == multiset(init[i - 1 := next])
    requires j == 1 || above(s[j / 2 - 1], next)
    ensures SiftUpPost(s[j - 1 := next], init, next, i, above)
  {
    var t := s[j - 1 := next];
    forall k | 2 <= k <= i
      ensures !above(t[k - 1], t[k / 2 - 1])
    {
      if k == j {
        assert t[k / 2 - 1] == s[j / 2 - 1];
      }
    }
  }

  /** A parent that does not belong above `next` moves down into the hole,
      and the hole moves up to the parent's slot. */
  lemma {:induction false} SiftUpStep<T(!new)>(s: seq<T>, init: seq<T>, next: T, i: nat, j: nat, above: (T, T) -> bool)
    requires StrictWeakOrder(above) && SiftUpInv(s, init, next, i, j, above)
    requires j > 1 && !above(s[j / 2 - 1], next)
    ensures SiftUpInv(s[j - 1 := s[j / 2 - 1]], init, next, i, j / 2, above)
  {
    var p := j / 2;
    var t := s[j - 1 := s[p - 1]];
    InParentSubtree(i, j);
    forall k | 1 <= k <= |s| && !InSubtree(i, k)
      ensures t[k - 1] == init[k - 1]
    {
      assert k != j;
    }
    SiftUpStepEdges(s, next, i, j, above);
  }

  /** The edges after one sift-up step: the parent moved into the hole lies
      above the hole's children, and below the grandparent. */
  lemma {:induction false} SiftUpStepEdges<T(!new)>(s: seq<T>, next: T, i: nat, j: nat, above: (T, T) -> bool)
    requires StrictWeakOrder(above)
    requires 2 <= j <= i <= |s|
    requires forall k :: 2 <= k <= i && k != j && k / 2 != j ==> !above(s[k - 1], s[k / 2 - 1])
    requires forall k :: 2 <= k <= i && k / 2 == j ==> !above(s[k - 1], next)
    requires forall k :: 2 <= k <= i && k / 2 == j ==> !above(s[k - 1], s[j / 2 - 1])
    requires !above(s[j / 2 - 1], next)
    ensures var p := j / 2; var t := s[j - 1 := s[p - 1]];
      && (forall k :: 2 <= k <= i && k != p && k / 2 != p ==> !above(t[k - 1], t[k / 2 - 1]))
      && (forall k :: 2 <= k <= i && k / 2 == p ==> !above(t[k - 1], next))
      && (p > 1 ==> forall k :: 2 <= k <= i && k / 2 == p ==> !above(t[k - 1], t[p / 2 - 1]))
  {
    var p := j / 2;
    var parent := s[p - 1];
    var t := s[j - 1 := parent];
    forall k | 2 <= k <= i && k != p && k / 2 != p
      ensures !above(t[k - 1], t[k / 2 - 1])
    {
      if k / 2 == j {
        assert t[k / 2 - 1] == parent;
      }
    }
    forall k | 2 <= k <= i && k / 2 == p
      ensures !above(t[k - 1], next)
      ensures p > 1 ==> !above(t[k - 1], t[p / 2 - 1])
    {
      if k != j {
        assert !above(s[k - 1], parent);
      }
      if p > 1 {
        assert !above(parent, s[p / 2 - 1]);
      }
    }
  }

  /** The parent moving down into the hole keeps the slots, with `next`
      written into the hole, a permutation of the old ones. */
  lemma HoleMovesUp<T>(s: seq<T>, t: seq<T>, init: seq<T>, next: T, i: nat, j: nat)
    requires 2 <= j <= |s| && 1 <= i <= |init|
    requires t == s[j - 1 := s[j / 2 - 1]]
    requires multiset(s[j - 1 := next]) == multiset(init[i - 1 := next])
    ensures multiset(t[j / 2 - 1 := next]) == multiset(init[i - 1 := next])
  {
    MoveIntoHole(s, j - 1, j / 2 - 1, next);
  }

  /** One level of `do_insert` with the hole at slot j: `next` is written
      into the hole when the hole is the root or its parent belongs above
      `next` (done); otherwise the parent moves down into the hole. */
  method SiftUpLevel<T>(nodes: array<T>, next: T, j: nat, above: (T, T) -> bool) returns (done: bool)
    requires 1 <= j <= nodes.Length
    modifies nodes
    ensures done ==> (j == 1 || above(old(nodes[j / 2 - 1]), next)) && nodes[..] == old(nodes[..])[j - 1 := next]
    ensures !done ==> j > 1 && !above(old(nodes[j / 2 - 1]), next) && nodes[..] == old(nodes[..])[j - 1 := old(nodes[j / 2 - 1])]
  {
    // the root has been reached: `next` is the new root
    if j == 1 {
      nodes[0] := next;
      return true;
    }
    var parent := nodes[j / 2 - 1];
    if above(parent, next) {
      nodes[j - 1] := next;
      return true;
    }
    nodes[j - 1] := parent;
    return false;
  }

  /** The loop of `do_insert(nodes, next, i)`: the tail recursion, one
      level per iteration, with the hole starting at slot i. */
  method SiftUp<T(!new)>(nodes: array<T>, next: T, i: nat, above: (T, T) -> bool)
    requires StrictWeakOrder(above)
    requires 1 <= i <= nodes.Length
    requires HeapOrdered(nodes[..], i - 1, above)
    modifies nodes
    ensures SiftUpPost(nodes[..], old(nodes[..]), next, i, above)
  {
    ghost var init := nodes[..];
    SiftUpInit(init, next, i, above);
    var j := i;
    while true
      invariant SiftUpInv(nodes[..], init, next, i, j, above)
      invariant multiset(nodes[..][j - 1 := next]) == multiset(init[i - 1 := next])
      decreases j
    {
      ghost var s := nodes[..];
      var done := SiftUpLevel(nodes, next, j, above);
      if done {
        SiftUpPlace(s, init, next, i, j, above);
        return;
      }
      SiftUpStep(s, init, next, i, j, above);
      HoleMovesUp(s, nodes[..], init, next, i, j);
      j := j / 2;
    }
  }

  /** `do_insert(nodes, next, i)`: sift-up. Slots 1..i-1 are heap-ordered and
      slot i is a hole, whose old content is discarded. Parents that do not
      belong above `next` move down one level until `next` finds its slot;
      then slots 1..i are heap-ordered and hold the old slots 1..i-1 and
      `next`, and no later slot is written. */
  method DoInsert<T(!new)>(nodes: array<T>, next: T, i: nat, above: (T, T) -> bool)
    requires StrictWeakOrder(above)
    requires 1 <= i <= nodes.Length
    requires HeapOrdered(nodes[..], i - 1, above)
    modifies nodes
    ensures HeapOrdered(nodes[..], i, above)
    ensures multiset(nodes[..i]) == multiset(old(nodes[..i - 1])) + multiset{next}
    ensures nodes[i..] == old(nodes[i..])
  {
    ghost var before := nodes[..];
    SiftUp(nodes, next, i, above);
    SiftUpPrefix(before, nodes[..], next, i - 1, above);
  }

  // -------------------------------------------------------------- sift-down

  /** Nothing outside slot i and the part of its subtree within 1..base
      differs between s and init. */
  ghost predicate ShiftFrame<T>(s: seq<T>, init: seq<T>, i: nat, base: nat) {
    |s| == |init| &&
    forall k {:trigger s[k - 1]} :: 1 <= k <= |s| && k != i && !(k <= base && InSubtree(k, i)) ==> s[k - 1] == init[k - 1]
  }

  /** Every edge of the subtree of slot i within 1..base is ordered, except
      the edges that meet slot j. */
  ghost predicate ShiftEdges<T>(s: seq<T>, i: nat, j: nat, base: nat, above: (T, T) -> bool) {
    base <= |s| &&
    forall k :: 2 <= k <= base && InSubtree(k / 2, i) && k != j && k / 2 != j ==> !above(s[k - 1], s[k / 2 - 1])
  }

  /** What `do_shift(nodes, next, i, base)` promises: the subtree of slot i
      within 1..base heap-ordered, the slots a permutation of the old ones
      with slot i replaced by `next`, and nothing written outside slot i and
      the part of its subtree within 1..base. */
  ghost predicate ShiftPost<T(!new)>(s: seq<T>, init: seq<T>, next: T, i: nat, base: nat, above: (T, T) -> bool) {
    && |s| == |init| && 1 <= i <= |s| && base <= |s|
    && (forall k :: 2 <= k <= base && InSubtree(k / 2, i) ==> !above(s[k - 1], s[k / 2 - 1]))
    && multiset(s) == multiset(init[i - 1 := next])
    && ShiftFrame(s, init, i, base)
  }

  /** The shape of sift-down with the hole at slot j of the subtree of i:
      every edge of that subtree away from the hole is ordered, the children
      of the hole lie below the hole's parent, and `next` does too. (That
      the slots with `next` written into the hole permute the old ones is
      kept beside it, in the loop of DoShift.) */
  ghost predicate ShiftInv<T(!new)>(s: seq<T>, init: seq<T>, next: T, i: nat, j: nat, base: nat, above: (T, T) -> bool) {
    && |s| == |init| && 1 <= i <= j <= |s| && InSubtree(j, i) && (j == i || j <= base)
    && ShiftFrame(s, init, i, base)
    && ShiftEdges(s, i, j, base, above)
    && (j != i && 2 * j <= base ==> !above(s[2 * j - 1], s[j / 2 - 1]))
    && (j != i && 2 * j + 1 <= base ==> !above(s[2 * j], s[j / 2 - 1]))
    && (j != i ==> !above(next, s[j / 2 - 1]))
  }

  lemma {:induction false} ShiftInit<T(!new)>(s: seq<T>, next: T, i: nat, base: nat, above: (T, T) -> bool)
    requires 1 <= i <= |s| && base <= |s|
    requires forall k :: 2 <= k <= base && k / 2 != i && InSubtree(k / 2, i) ==> !above(s[k - 1], s[k / 2 - 1])
    ensures ShiftInv(s, s, next, i, i, base, above)
  {
  }

  /** Writing at slot i, or inside its subtree within 1..base, keeps the frame. */
  lemma {:induction false} ShiftFrameUpdate<T>(s: seq<T>, init: seq<T>, i: nat, base: nat, j: nat, v: T)
    requires ShiftFrame(s, init, i, base)
    requires 1 <= j <= |s| && (j == i || (j <= base && InSubtree(j, i)))
    ensures ShiftFrame(s[j - 1 := v], init, i, base)
  {
    var t := s[j - 1 := v];
    forall k | 1 <= k <= |t| && k != i && !(k <= base && InSubtree(k, i))
      ensures t[k - 1] == init[k - 1]
    {
      assert k != j;
    }
  }

  /** Writing `next` into the hole finishes the descent once no child of the
      hole within 1..base belongs above `next`. */
  lemma {:induction false} ShiftPlace<T(!new)>(s: seq<T>, init: seq<T>, next: T, i: nat, j: nat, base: nat, above: (T, T) -> bool)
    requires ShiftInv(s, init, next, i, j, base, above)
    requires multiset(s[j - 1 := next]) == multiset(init[i - 1 := next])
    requires 2 * j <= base ==> !above(s[2 * j - 1], next)
    requires 2 * j + 1 <= base ==> !above(s[2 * j], next)
    ensures ShiftPost(s[j - 1 := next], init, next, i, base, above)
  {
    ShiftFrameUpdate(s, init, i, base, j, next);
    ShiftPlaceEdges(s, next, i, j, base, above);
  }

  lemma {:induction false} ShiftPlaceEdges<T>(s: seq<T>, next: T, i: nat, j: nat, base: nat, above: (T, T) -> bool)
    requires 1 <= i <= j <= |s| && ShiftEdges(s, i, j, base, above)
    requires j == i || j <= base
    requires j != i ==> !above(next, s[j / 2 - 1])
    requires 2 * j <= base ==> !above(s[2 * j - 1], next)
    requires 2 * j + 1 <= base ==> !above(s[2 * j], next)
    ensures var t := s[j - 1 := next];
      forall k :: 2 <= k <= base && InSubtree(k / 2, i) ==> !above(t[k - 1], t[k / 2 - 1])
  {
    var t := s[j - 1 := next];
    forall k | 2 <= k <= base && InSubtree(k / 2, i)
      ensures !above(t[k - 1], t[k / 2 - 1])
    {
      if k == j {
        assert j != i;
      } else if k / 2 == j {
        assert k == 2 * j || k == 2 * j + 1;
      }
    }
  }

  /** The child at slot c (2j or 2j + 1, within 1..base), above which `next`
      does not belong and above which its sibling does not belong, moves up
      into the hole, and the hole moves down to slot c. */
  lemma {:induction false} ShiftPromote<T(!new)>(s: seq<T>, init: seq<T>, next: T, i: nat, j: nat, base: nat, above: (T, T) -> bool, c: nat)
    requires ShiftInv(s, init, next, i, j, base, above)
    requires (c == 2 * j || c == 2 * j + 1) && c <= base
    requires !above(next, s[c - 1])
    requires !above(s[2 * j - 1], s[c - 1])
    requires 2 * j + 1 <= base ==> !above(s[2 * j], s[c - 1])
    ensures ShiftInv(s[j - 1 := s[c - 1]], init, next, i, c, base, above)
  {
    ShiftFrameUpdate(s, init, i, base, j, s[c - 1]);
    if j != i {
      assert c / 2 == j;
    }
    ShiftPromoteEdges(s, i, j, base, above, c);
  }

  /** The edges after the child at c moved up into slot j: all of the
      subtree of i away from the new hole at c are ordered, and the children
      of c lie below the value now at j. */
  lemma {:induction false} ShiftPromoteEdges<T>(s: seq<T>, i: nat, j: nat, base: nat, above: (T, T) -> bool, c: nat)
    requires 1 <= i <= j && InSubtree(j, i) && ShiftEdges(s, i, j, base, above)
    requires (c == 2 * j || c == 2 * j + 1) && c <= base
    requires j != i ==> !above(s[c - 1], s[j / 2 - 1])
    requires !above(s[2 * j - 1], s[c - 1])
    requires 2 * j + 1 <= base ==> !above(s[2 * j], s[c - 1])
    ensures InSubtree(c, i)
    ensures ShiftEdges(s[j - 1 := s[c - 1]], i, c, base, above)
    ensures 2 * c <= base ==> !above(s[2 * c - 1], s[c - 1])
    ensures 2 * c + 1 <= base ==> !above(s[2 * c], s[c - 1])
  {
    assert c / 2 == j;
    assert InSubtree(c, i);
    var t := s[j - 1 := s[c - 1]];
    forall k | 2 <= k <= base && InSubtree(k / 2, i) && k != c && k / 2 != c
      ensures !above(t[k - 1], t[k / 2 - 1])
    {
      if k == j {
        assert j != i;
      } else if k / 2 == j {
        assert k == 2 * j || k == 2 * j + 1;
      }
    }
    if 2 * c <= base {
      assert (2 * c) / 2 == c;
    }
    if 2 * c + 1 <= base {
      assert (2 * c + 1) / 2 == c;
    }
  }

  /** The child `do_shift` moves up is one above which neither `next` nor its
      sibling belongs: the left child when it belongs above `next` and
      above the right child (or there is none), and otherwise the right
      child when one of the two belongs above `next`. */
  lemma {:induction false} ShiftChoice<T(!new)>(s: seq<T>, next: T, j: nat, base: nat, above: (T, T) -> bool, c: nat)
    requires StrictWeakOrder(above)
    requires 1 <= j && (c == 2 * j || c == 2 * j + 1) && c <= base <= |s|
    requires c == 2 * j ==> above(s[2 * j - 1], next) && (2 * j + 1 <= base ==> above(s[2 * j - 1], s[2 * j]))
    requires c == 2 * j + 1 ==> if above(s[2 * j - 1], next) then !above(s[2 * j - 1], s[2 * j]) else above(s[2 * j], next)
    ensures !above(next, s[c - 1])
    ensures !above(s[2 * j - 1], s[c - 1])
    ensures 2 * j + 1 <= base ==> !above(s[2 * j], s[c - 1])
  {
    if c == 2 * j + 1 {
      var l, r := s[2 * j - 1], s[2 * j];
      if above(l, next) {
        // l above next but not above r: r is above next
        assert above(r, next);
      } else {
        // r above next but l is not: r is above l
        assert above(r, l);
      }
    }
  }

  /** One level of `do_shift`: with the hole at slot j, either `next` is
      written there (result 0, no child within 1..base belongs above it) or
      the child c moved up into the hole is returned, one above which
      neither `next` nor its sibling belongs. The source's special case of a
      lone left child, which it moves up while writing `next` into the
      child's slot at once, is the second outcome followed by the first. */
  method ShiftLevel<T(!new)>(nodes: array<T>, next: T, j: nat, base: nat, above: (T, T) -> bool) returns (c: nat)
    requires StrictWeakOrder(above)
    requires 1 <= j <= nodes.Length && base <= nodes.Length
    modifies nodes
    ensures c == 0 ==> nodes[..] == old(nodes[..])[j - 1 := next]
    ensures c == 0 && 2 * j <= base ==> !above(old(nodes[2 * j - 1]), next)
    ensures c == 0 && 2 * j + 1 <= base ==> !above(old(nodes[2 * j]), next)
    ensures c != 0 ==> (c == 2 * j || c == 2 * j + 1) && c <= base
    ensures c != 0 ==> nodes[..] == old(nodes[..])[j - 1 := old(nodes[c - 1])]
    ensures c != 0 ==> !above(next, old(nodes[c - 1]))
    ensures c != 0 ==> !above(old(nodes[2 * j - 1]), old(nodes[c - 1]))
    ensures c != 0 && 2 * j + 1 <= base ==> !above(old(nodes[2 * j]), old(nodes[c - 1]))
  {
    ghost var s := nodes[..];
    var lchild := 2 * j;
    var rchild := lchild + 1;
    c := 0;
    if lchild <= base {
      var l := nodes[lchild - 1];
      if above(l, next) {
        if rchild > base || above(l, nodes[rchild - 1]) {
          c := lchild;
        } else {
          c := rchild;
        }
      } else if rchild <= base && above(nodes[rchild - 1], next) {
        c := rchild;
      }
    }
    if c == 0 {
      nodes[j - 1] := next;
    } else {
      ShiftChoice(s, next, j, base, above, c);
      nodes[j - 1] := nodes[c - 1];
    }
  }

  /** `do_shift(nodes, next, i, base)`: sift-down within slots 1..base. The
      subtrees below slot i are heap-ordered and slot i is a hole, whose old
      content is discarded. The dominant child moves up one level until
      `next` belongs above every child of its slot. */
  method DoShift<T(!new)>(nodes: array<T>, next: T, i: nat, base: nat, above: (T, T) -> bool)
    requires StrictWeakOrder(above)
    requires 1 <= i <= nodes.Length && base <= nodes.Length
    requires forall k :: 2 <= k <= base && k / 2 != i && InSubtree(k / 2, i) ==> !above(nodes[k - 1], nodes[k / 2 - 1])
    modifies nodes
    ensures ShiftPost(nodes[..], old(nodes[..]), next, i, base, above)
  {
    ghost var init := nodes[..];
    ShiftInit(init, next, i, base, above);
    var j := i;
    while true
      invariant ShiftInv(nodes[..], init, next, i, j, base, above)
      invariant multiset(nodes[..][j - 1 := next]) == multiset(init[i - 1 := next])
      decreases base - j
    {
      ghost var s := nodes[..];
      var c := ShiftLevel(nodes, next, j, base, above);
      if c == 0 {
        ShiftPlace(s, init, next, i, j, base, above);
        return;
      }
      ShiftPromote(s, init, next, i, j, base, above, c);
      MoveIntoHole(s, j - 1, c - 1, next);
      j := c;
    }
  }

  // ------------------------------------------------------------- heap sort

  /** Every edge of slots 1..n whose parent is slot i or later is ordered. */
  ghost predicate OrderedFrom<T>(s: seq<T>, i: nat, n: nat, above: (T, T) -> bool) {
    n <= |s| && forall k :: 2 <= k <= n && k / 2 >= i ==> !above(s[k - 1], s[k / 2 - 1])
  }

  /** Sifting down from slot i, with the edges below slot i ordered, orders
      every edge whose parent is slot i or later: the edges inside the
      subtree of i by the sift itself, the others because the sift wrote
      neither of their slots. */
  lemma {:induction false} SortStep<T(!new)>(s: seq<T>, t: seq<T>, next: T, i: nat, n: nat, above: (T, T) -> bool)
    requires 1 <= i && OrderedFrom(s, i + 1, n, above)
    requires ShiftPost(t, s, next, i, n, above)
    ensures OrderedFrom(t, i, n, above)
  {
    forall k | 2 <= k <= n && k / 2 >= i
      ensures !above(t[k - 1], t[k / 2 - 1])
    {
      if !InSubtree(k / 2, i) {
        assert !InSubtree(k, i);
        assert t[k - 1] == s[k - 1] && t[k / 2 - 1] == s[k / 2 - 1];
      }
    }
  }

  /** After sifting the value of slot i + 1 down from slot i, every slot from
      i on holds a value that some slot after i held before. */
  lemma {:induction false} SortValuesStep<T(!new)>(s: seq<T>, t: seq<T>, i: nat, n: nat, above: (T, T) -> bool)
    requires 1 <= i < n <= |s|
    requires ShiftPost(t, s, s[i], i, n, above)
    ensures forall k :: i - 1 <= k < n ==> t[k] in s[i..n]
    ensures forall k :: 0 <= k < |t| && !(i - 1 <= k < n) ==> t[k] == s[k]
  {
    forall k | 0 <= k < |t| && !(i - 1 <= k < n)
      ensures t[k] == s[k]
    {
      var m := k + 1;
      if m < i {
        assert !InSubtree(m, i);
      }
      assert t[m - 1] == s[m - 1];
    }
    UpdatedSliceValues(s, t, i - 1, s[i], i - 1, n);
  }

  /** Sifting slot i's own value down from slot i permutes the slots and
      leaves the slots after n alone. */
  lemma {:induction false} SiftOwnValue<T(!new)>(s: seq<T>, t: seq<T>, i: nat, n: nat, above: (T, T) -> bool)
    requires 1 <= i <= n <= |s|
    requires ShiftPost(t, s, s[i - 1], i, n, above)
    ensures multiset(t) == multiset(s)
    ensures t[n..] == s[n..]
  {
    assert s[i - 1 := s[i - 1]] == s;
    forall k | n <= k < |t|
      ensures t[k] == s[k]
    {
      var m := k + 1;
      assert t[m - 1] == s[m - 1];
    }
  }

  /** The state of `bheap_sort` over slots 1..length of storage that was
      init, once the sifts from slots length - 1 down to i are done: every
      edge whose parent is slot i or later is ordered, every slot from i to
      length holds the old value of slot length, and nothing moves for
      length <= 1, nor after slot length. */
  ghost predicate SortInv<T>(s: seq<T>, init: seq<T>, i: nat, length: nat, above: (T, T) -> bool) {
    && |s| == |init| && length <= |s| && i <= length && (length >= 1 ==> 1 <= i)
    && OrderedFrom(s, i, length, above)
    && (length <= 1 ==> s == init)
    && (length >= 1 ==> forall k :: i - 1 <= k < length ==> s[k] == init[length - 1])
    && s[length..] == init[length..]
  }

  /** One step of `bheap_sort`: the value of slot i + 1 sifted down from
      slot i. It and every value the sift moves are copies of the old value
      of slot length, so slot i's own value is overwritten by another one. */
  lemma {:induction false} SortInvStep<T(!new)>(s: seq<T>, t: seq<T>, init: seq<T>, i: nat, length: nat, above: (T, T) -> bool)
    requires 1 <= i < length && SortInv(s, init, i + 1, length, above)
    requires ShiftPost(t, s, s[i], i, length, above)
    ensures SortInv(t, init, i, length, above)
  {
    SortStep(s, t, s[i], i, length, above);
    SortValuesStep(s, t, i, length, above);
    forall k | i - 1 <= k < length
      ensures t[k] == init[length - 1]
    {
      assert t[k] in s[i..length];
    }
    assert t[length..] == s[length..];
  }

  /** The sift-down of one step of `bheap_sort`: next, the value of slot
      i + 1, sifted down from slot i over slots 1..length. */
  method SortLevel<T(!new)>(a: array<T>, next: T, i: nat, length: nat, above: (T, T) -> bool, ghost init: seq<T>)
    requires StrictWeakOrder(above)
    requires 1 <= i < length && SortInv(a[..], init, i + 1, length, above) && next == a[i]
    modifies a
    ensures SortInv(a[..], init, i, length, above)
  {
    ghost var s := a[..];
    SortShiftReady(s, init, i, length, above);
    DoShift(a, next, i, length, above);
    SortInvStep(s, a[..], init, i, length, above);
  }

  /** The edges below slot i are ordered before the sift from slot i. */
  lemma {:induction false} SortShiftReady<T>(s: seq<T>, init: seq<T>, i: nat, length: nat, above: (T, T) -> bool)
    requires 1 <= i && SortInv(s, init, i + 1, length, above)
    ensures forall k :: 2 <= k <= length && k / 2 != i && InSubtree(k / 2, i) ==> !above(s[k - 1], s[k / 2 - 1])
  {
  }

  /** `bheap_sort(array, length, compare)` on the array a, as written: for i from length
      down to 2 it reads slot i, steps i down to i - 1 and sifts that value
      down from slot i. The result is heap-ordered, but the value of slot i
      at each sift is overwritten without being kept, and the value sifted
      down is always a copy of the old slot length: every slot ends up
      holding the old value of slot length, whatever the comparator. */
  method BHeapSort<T(!new)>(a: array<T>, length: nat, above: (T, T) -> bool)
    requires StrictWeakOrder(above)
    requires length <= a.Length
    modifies a
    ensures HeapOrdered(a[..], length, above)
    ensures length <= 1 ==> a[..] == old(a[..])
    ensures length >= 1 ==> forall k :: 0 <= k < length ==> a[k] == old(a[length - 1])
    ensures length >= 2 ==> forall k :: 0 <= k < length ==> a[k] in old(a[1..length])
    ensures a[length..] == old(a[length..])
  {
    ghost var init := a[..];
    var i: nat := length;
    while i > 1
      invariant SortInv(a[..], init, i, length, above)
      decreases i
    {
      var next := a[i - 1];
      i := i - 1;
      SortLevel(a, next, i, length, above, init);
    }
    if length >= 2 {
      assert init[1..length][length - 2] == init[length - 1];
    }
  }

  /** Applying `bheap_sort` to a pair keeps only the second value. */
  method SortPairCollapses<T(0,!new)>(x: T, y: T, above: (T, T) -> bool) returns (r: seq<T>)
    requires StrictWeakOrder(above)
    ensures r == [y, y]
    ensures x != y ==> multiset(r) != multiset([x, y])
  {
    var a := new T[2] [x, y];
    BHeapSort(a, 2, above);
    r := a[..];
    assert a[0] in [y] && a[1] in [y];
    if x != y {
      assert multiset(r)[x] == 0;
    }
  }

  /** The sort with the two statements of each step in the other order:
      i first steps down, and then slot i's own value is sifted down from
      slot i. For i from length - 1 down to 1 this is the bottom-up heap
      construction, which keeps every value (slot length, a leaf, needs no
      sift). */
  method Heapify<T(!new)>(a: array<T>, length: nat, above: (T, T) -> bool)
    requires StrictWeakOrder(above)
    requires length <= a.Length
    modifies a
    ensures HeapOrdered(a[..], length, above)
    ensures multiset(a[..length]) == multiset(old(a[..length]))
    ensures a[length..] == old(a[length..])
  {
    ghost var init := a[..];
    var i: nat := length;
    while i > 1
      invariant i <= length && (length >= 1 ==> 1 <= i)
      invariant OrderedFrom(a[..], i, length, above)
      invariant multiset(a[..]) == multiset(init)
      invariant a[length..] == init[length..]
      decreases i
    {
      ghost var s := a[..];
      i := i - 1;
      var next := a[i - 1];
      DoShift(a, next, i, length, above);
      SortStep(s, a[..], next, i, length, above);
      SiftOwnValue(s, a[..], i, length, above);
    }
    MultisetOfSlice(a[..], init, 0, length);
  }
}
