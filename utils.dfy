/** Integer and buffer helpers of the heap library: `next_pow_two`, the
    capacity rounding used when a batch insertion has to grow the heap, and
    `mem_swap`, an exchange of two non-overlapping byte buffers. */
module Utils {

  /** BIT_SIZE(size_t) on the 64-bit targets the library is written for. */
  const SizeBits: nat := 64

  /** 2^k, the value of `1lu << k` for k < SizeBits. */
  function Pow2(k: nat): (r: nat)
    ensures r >= 1
  {
    if k == 0 then 1 else 2 * Pow2(k - 1)
  }

  /** x is one of 1, 2, 4, 8, ... */
  predicate IsPow2(x: nat)
    decreases x
  {
    x == 1 || (x >= 2 && x % 2 == 0 && IsPow2(x / 2))
  }

  lemma {:induction false} Pow2Monotone(a: nat, b: nat)
    requires a <= b
    ensures Pow2(a) <= Pow2(b)
    decreases b
  {
    if a < b {
      Pow2Monotone(a, b - 1);
    }
  }

  lemma {:induction false} Pow2IsPow2(k: nat)
    ensures IsPow2(Pow2(k))
  {
    if k > 0 {
      Pow2IsPow2(k - 1);
      assert Pow2(k) / 2 == Pow2(k - 1);
    }
  }

  /** The exponent of a power of two. */
  function Log2(x: nat): (r: nat)
    requires IsPow2(x)
    ensures Pow2(r) == x
    decreases x
  {
    if x == 1 then 0 else 1 + Log2(x / 2)
  }

  /** Number of significant bits of x (0 for x == 0): the word width minus
      the leading zeros. */
  function BitLength(x: nat): (r: nat)
    ensures x < Pow2(r)
    ensures x > 0 ==> r >= 1 && Pow2(r - 1) <= x
  {
    if x == 0 then 0 else 1 + BitLength(x / 2)
  }

  lemma {:induction false} BitLengthBelowPow2(k: nat)
    ensures BitLength(Pow2(k) - 1) == k
  {
    if k > 0 {
      assert (Pow2(k) - 1) / 2 == Pow2(k - 1) - 1;
      BitLengthBelowPow2(k - 1);
    }
  }

  /** A value below 2^n needs at most n bits. */
  lemma {:induction false} BitLengthAtMost(x: nat, n: nat)
    requires x < Pow2(n)
    ensures BitLength(x) <= n
  {
    if x > 0 {
      BitLengthAtMost(x / 2, n - 1);
    }
  }

  /** The leading zeros r = n - BitLength(x) of a nonzero x in an n-bit
      word locate x between two powers of two. */
  lemma {:induction false} LeadingZerosBounds(x: nat, n: nat, r: int)
    requires 0 < x < Pow2(n)
    requires r == n - BitLength(x)
    ensures 0 <= r < n
    ensures Pow2(n - 1 - r) <= x < Pow2(n - r)
  {
    BitLengthAtMost(x, n);
    var b := BitLength(x);
    assert n - 1 - r == b - 1;
    assert n - r == b;
  }

  /** `__builtin_clzl` on a 64-bit word; undefined for 0, so 0 is excluded. */
  function CountLeadingZeros(x: nat): (r: nat)
    requires 0 < x < Pow2(SizeBits)
    ensures r < SizeBits
    ensures Pow2(SizeBits - 1 - r) <= x < Pow2(SizeBits - r)
  {
    var r := SizeBits - BitLength(x);
    LeadingZerosBounds(x, SizeBits, r);
    r
  }

  /** `next_pow_two(num)`: `1lu << (BIT_SIZE(size_t) - __builtin_clzl(num - 1))`.
      For num == 1 the builtin is applied to 0 and for num == 0 the argument
      wraps around and the shift reaches 64; both are undefined behaviour,
      hence the lower bound. Above 2^63 the shift would reach 64 as well.
      The result is a power of two that covers num, and halving it would
      not: num <= r and r / 2 < num. */
  function NextPowTwo(num: nat): (r: nat)
    requires 2 <= num <= Pow2(SizeBits - 1)
    ensures IsPow2(r)
    ensures num <= r && r / 2 < num
    ensures r <= Pow2(SizeBits - 1)
  {
    Pow2Monotone(SizeBits - 1, SizeBits);
    BitLengthAtMost(num - 1, SizeBits - 1);
    var shift := SizeBits - CountLeadingZeros(num - 1);
    assert shift == BitLength(num - 1);
    Pow2IsPow2(shift);
    assert Pow2(shift) / 2 == Pow2(shift - 1);
    Pow2Monotone(shift, SizeBits - 1);
    Pow2(shift)
  }

  /** The shift amount stays below the word width, so the C expression is
      defined, and the result is 2^BitLength(num - 1). */
  lemma NextPowTwoShift(num: nat)
    requires 2 <= num <= Pow2(SizeBits - 1)
    ensures 1 <= BitLength(num - 1) < SizeBits
    ensures NextPowTwo(num) == Pow2(BitLength(num - 1))
  {
    BitLengthAtMost(num - 1, SizeBits - 1);
  }

  /** No smaller power of two covers num. */
  lemma NextPowTwoIsLeast(num: nat, k: nat)
    requires 2 <= num <= Pow2(SizeBits - 1)
    requires num <= Pow2(k)
    ensures NextPowTwo(num) <= Pow2(k)
  {
    NextPowTwoShift(num);
    var b := BitLength(num - 1);
    if k < b {
      Pow2Monotone(k, b - 1);
    } else {
      Pow2Monotone(b, k);
    }
  }

  /** A power of two is its own rounding: nothing is gained when num already
      is one, which is how a batch insertion can leave `count == alloc`. */
  lemma NextPowTwoOfPow2(num: nat)
    requires 2 <= num <= Pow2(SizeBits - 1)
    requires IsPow2(num)
    ensures NextPowTwo(num) == num
  {
    NextPowTwoShift(num);
    var k := Log2(num);
    BitLengthBelowPow2(k);
  }

  newtype byte = b: int | 0 <= b < 256

  /** The two buffers after exchanging their first width bytes. */
  function SwapPrefix(x: seq<byte>, y: seq<byte>, width: nat): (r: (seq<byte>, seq<byte>))
    requires width <= |x| && width <= |y|
  {
    (y[..width] + x[width..], x[..width] + y[width..])
  }

  /** Exchanging the same prefixes twice gives back both buffers. */
  lemma SwapPrefixTwice(x: seq<byte>, y: seq<byte>, width: nat)
    requires width <= |x| && width <= |y|
    ensures var (x1, y1) := SwapPrefix(x, y, width);
            width <= |x1| && width <= |y1| && SwapPrefix(x1, y1, width) == (x, y)
  {
    var (x1, y1) := SwapPrefix(x, y, width);
    assert x1[..width] == y[..width] && x1[width..] == x[width..];
    assert y1[..width] == x[..width] && y1[width..] == y[width..];
    assert y1[..width] + x1[width..] == x;
    assert x1[..width] + y1[width..] == y;
  }

  /** `memcpy(dst, src, width)` between distinct buffers. */
  method MemCopy(dst: array<byte>, src: array<byte>, width: nat)
    requires dst != src
    requires width <= dst.Length && width <= src.Length
    modifies dst
    ensures dst[..width] == src[..width]
    ensures dst[width..] == old(dst[width..])
  {
    forall k | 0 <= k < width {
      dst[k] := src[k];
    }
  }

  /** `mem_swap(x, y, width)` on regions at the start of two distinct
      buffers. (`restrict` only promises that the regions do not overlap;
      two regions of one buffer are MemSwapRegions.) The temporary is the
      variable-length array `char buffer[width]`, whose length must be
      positive (section 6.7.6.2 of ISO/IEC 9899:2011), hence width >= 1. */
  method MemSwap(x: array<byte>, y: array<byte>, width: nat)
    requires x != y
    requires 1 <= width <= x.Length && width <= y.Length
    modifies x, y
    ensures x[..width] == old(y[..width]) && x[width..] == old(x[width..])
    ensures y[..width] == old(x[..width]) && y[width..] == old(y[width..])
    ensures (x[..], y[..]) == SwapPrefix(old(x[..]), old(y[..]), width)
  {
    var buffer := new byte[width];
    MemCopy(buffer, x, width);
    MemCopy(x, y, width);
    MemCopy(y, buffer, width);
    assert x[..] == x[..width] + x[width..];
    assert y[..] == y[..width] + y[width..];
  }

  /** The buffer s after exchanging its width bytes at i with those at j. */
  function SwapRegions(s: seq<byte>, i: nat, j: nat, width: nat): (r: seq<byte>)
    requires i + width <= |s| && j + width <= |s|
    requires i + width <= j || j + width <= i
    ensures |r| == |s|
  {
    seq(|s|, k requires 0 <= k < |s| =>
      if i <= k < i + width then s[k - i + j]
      else if j <= k < j + width then s[k - j + i]
      else s[k])
  }

  /** Exchanging the same two regions twice gives back the buffer. */
  lemma SwapRegionsTwice(s: seq<byte>, i: nat, j: nat, width: nat)
    requires i + width <= |s| && j + width <= |s|
    requires i + width <= j || j + width <= i
    ensures SwapRegions(SwapRegions(s, i, j, width), i, j, width) == s
  {
    var t := SwapRegions(s, i, j, width);
    forall k | 0 <= k < |s|
      ensures SwapRegions(t, i, j, width)[k] == s[k]
    {
      if i <= k < i + width {
        assert t[k - i + j] == s[k];
      } else if j <= k < j + width {
        assert t[k - j + i] == s[k];
      }
    }
  }

  /** A buffer that holds, in each of the two regions, the other's old bytes
      and elsewhere its own is the swapped buffer. */
  lemma SwapRegionsPointwise(s: seq<byte>, t: seq<byte>, i: nat, j: nat, width: nat)
    requires i + width <= |s| && j + width <= |s| && |t| == |s|
    requires i + width <= j || j + width <= i
    requires forall k :: i <= k < i + width ==> t[k] == s[k - i + j]
    requires forall k :: j <= k < j + width ==> t[k] == s[k - j + i]
    requires forall k :: 0 <= k < |s| && !(i <= k < i + width) && !(j <= k < j + width) ==> t[k] == s[k]
    ensures t == SwapRegions(s, i, j, width)
  {
  }

  /** `mem_swap(&buf[i], &buf[j], width)`: two regions of one buffer, which
      `restrict` requires not to overlap; width >= 1 as for MemSwap. */
  method MemSwapRegions(buf: array<byte>, i: nat, j: nat, width: nat)
    requires 1 <= width
    requires i + width <= buf.Length && j + width <= buf.Length
    requires i + width <= j || j + width <= i
    modifies buf
    ensures forall k :: i <= k < i + width ==> buf[k] == old(buf[k - i + j])
    ensures forall k :: j <= k < j + width ==> buf[k] == old(buf[k - j + i])
    ensures forall k :: 0 <= k < buf.Length && !(i <= k < i + width) && !(j <= k < j + width) ==> buf[k] == old(buf[k])
    ensures buf[..] == SwapRegions(old(buf[..]), i, j, width)
  {
    ghost var s := buf[..];
    var buffer := new byte[width];
    forall k | 0 <= k < width {
      buffer[k] := buf[i + k];
    }
    forall k | 0 <= k < width {
      buf[i + k] := buf[j + k];
    }
    forall k | 0 <= k < width {
      buf[j + k] := buffer[k];
    }
    SwapRegionsPointwise(s, buf[..], i, j, width);
  }
}
