/** The ordering notions shared by the sift algorithms and the heap record.

    Slots are numbered from 1 as in the C layout (`nodes = array - 1`): slot k
    of a storage sequence s lives at s[k - 1]. The parent of slot k is slot
    k / 2 and its children are slots 2k and 2k + 1.

    The comparator returns an `int` in the C code, but only its truth value is
    ever tested, with the meaning "the first handle belongs above the second".
    It is modelled as the predicate `above`. */
module HeapOrder {

  /** `above` is a strict weak order: asymmetric (so irreflexive) and
      negatively transitive (so "does not belong above" is a total preorder). */
  ghost predicate StrictWeakOrder<T(!new)>(above: (T, T) -> bool) {
    && (forall x, y :: above(x, y) ==> !above(y, x))
    && (forall x, y, z {:trigger above(x, y), above(y, z), above(x, z)} :: !above(x, y) && !above(y, z) ==> !above(x, z))
  }

  /** Slot k lies in the subtree rooted at slot r (r itself included). */
  predicate InSubtree(k: nat, r: nat)
    decreases k
  {
    k == r || (k > r && InSubtree(k / 2, r))
  }

  /** No child among slots 2..n belongs above its parent. */
  ghost predicate HeapOrdered<T>(s: seq<T>, n: nat, above: (T, T) -> bool) {
    n <= |s| && forall k :: 2 <= k <= n ==> !above(s[k - 1], s[k / 2 - 1])
  }

  /** Every slot from 1 on belongs to the subtree of the root. */
  lemma {:induction false} InRootSubtree(k: nat)
    requires 1 <= k
    ensures InSubtree(k, 1)
    decreases k
  {
    if k > 1 {
      InRootSubtree(k / 2);
    }
  }

  /** A subtree is contained in the subtree of its root's parent. */
  lemma {:induction false} InParentSubtree(k: nat, r: nat)
    requires 2 <= r && InSubtree(k, r)
    ensures InSubtree(k, r / 2)
    decreases k
  {
    if k != r {
      InParentSubtree(k / 2, r);
    }
  }

  /** In a heap-ordered prefix nothing belongs above the root slot. */
  lemma {:induction false} RootDominates<T(!new)>(s: seq<T>, n: nat, above: (T, T) -> bool, k: nat)
    requires StrictWeakOrder(above) && HeapOrdered(s, n, above)
    requires 1 <= k <= n
    ensures !above(s[k - 1], s[0])
    decreases k
  {
    if k > 1 {
      RootDominates(s, n, above, k / 2);
    }
  }

  /** The same, for every value held by slots 1..n. */
  lemma RootDominatesAll<T(!new)>(s: seq<T>, n: nat, above: (T, T) -> bool)
    requires StrictWeakOrder(above) && HeapOrdered(s, n, above) && 1 <= n
    ensures forall x :: x in s[..n] ==> !above(x, s[0])
  {
    forall x | x in s[..n]
      ensures !above(x, s[0])
    {
      var m :| 0 <= m < n && s[m] == x;
      RootDominates(s, n, above, m + 1);
    }
  }

  /** Two sequences that are permutations of each other and agree outside
      [lo, hi) hold permutations of each other inside it. */
  lemma MultisetOfSlice<T>(s: seq<T>, t: seq<T>, lo: nat, hi: nat)
    requires |s| == |t| && lo <= hi <= |s|
    requires multiset(s) == multiset(t)
    requires forall k :: 0 <= k < |s| && !(lo <= k < hi) ==> s[k] == t[k]
    ensures multiset(s[lo..hi]) == multiset(t[lo..hi])
  {
    assert s == s[..lo] + s[lo..hi] + s[hi..];
    assert t == t[..lo] + t[lo..hi] + t[hi..];
    assert s[..lo] == t[..lo];
    assert s[hi..] == t[hi..];
    assert multiset(s) == multiset(s[..lo]) + multiset(s[lo..hi]) + multiset(s[hi..]);
    assert multiset(t) == multiset(t[..lo]) + multiset(t[lo..hi]) + multiset(t[hi..]);
    forall x
      ensures multiset(s[lo..hi])[x] == multiset(t[lo..hi])[x]
    {
      assert multiset(s)[x] == multiset(t)[x];
    }
  }

  /** Writing v at index n of before and permuting leaves, in the prefix up
      to n, the old prefix plus one copy of v, when nothing after n moved. */
  lemma InsertedPrefix<T>(after: seq<T>, before: seq<T>, n: nat, v: T)
    requires n < |before| == |after|
    requires multiset(after) == multiset(before[n := v])
    requires forall k :: n < k < |after| ==> after[k] == before[k]
    ensures multiset(after[..n + 1]) == multiset(before[..n]) + multiset{v}
  {
    MultisetOfSlice(after, before[n := v], 0, n + 1);
    assert before[n := v][..n + 1] == before[..n] + [v];
  }

  /** Each value of t inside [lo, hi) is v or a value s holds inside [lo, hi)
      somewhere other than index p, when t permutes s with index p set to v
      and agrees with s outside [lo, hi). */
  lemma UpdatedSliceValues<T>(s: seq<T>, t: seq<T>, p: nat, v: T, lo: nat, hi: nat)
    requires |s| == |t| && lo <= p < hi <= |s|
    requires multiset(t) == multiset(s[p := v])
    requires forall k :: 0 <= k < |s| && !(lo <= k < hi) ==> t[k] == s[k]
    ensures forall k :: lo <= k < hi ==> t[k] == v || t[k] in s[lo..p] || t[k] in s[p + 1..hi]
  {
    MultisetOfSlice(t, s[p := v], lo, hi);
    assert s[p := v][lo..hi] == s[lo..p] + [v] + s[p + 1..hi];
    forall k | lo <= k < hi
      ensures t[k] == v || t[k] in s[lo..p] || t[k] in s[p + 1..hi]
    {
      assert t[k] in multiset(t[lo..hi]);
    }
  }
}
