/**
 * Powers of two, `usize::trailing_zeros`, bit reversal of the low `k` bits
 * (what `i.reverse_bits() >> (usize::BITS - log_n)` computes) and the index
 * arithmetic of the butterfly loops, which walk blocks of length `len`
 * through an array whose length is a multiple of `len`.
 */
module Bits {
  import opened NumberTheory

  /** The width of `usize` on the targets the source is built for. */
  const WordBits: nat := 64
  /** One more than the largest `usize`. */
  const UsizeLimit: nat := 0x1_0000_0000_0000_0000

  function Pow2(k: nat): (r: nat)
    ensures r >= 1
  {
    if k == 0 then 1 else 2 * Pow2(k - 1)
  }

  /** `usize::is_power_of_two`. */
  predicate IsPow2(n: nat)
    decreases n
  {
    n == 1 || (n >= 2 && n % 2 == 0 && IsPow2(n / 2))
  }

  /** `usize::trailing_zeros`: 64 for 0. */
  function TrailingZeros(n: nat): nat
    decreases n
  {
    if n == 0 then WordBits else if n % 2 == 1 then 0 else 1 + TrailingZeros(n / 2)
  }

  lemma {:induction false} Pow2Add(a: nat, b: nat)
    ensures Pow2(a + b) == Pow2(a) * Pow2(b)
    decreases a
  {
    if a > 0 {
      Pow2Add(a - 1, b);
      assert Pow2(a + b) == 2 * Pow2(a - 1 + b);
      assert 2 * (Pow2(a - 1) * Pow2(b)) == (2 * Pow2(a - 1)) * Pow2(b);
    }
  }

  lemma {:induction false} Pow2Monotone(a: nat, b: nat)
    requires a <= b
    ensures Pow2(a) <= Pow2(b)
    decreases b
  {
    if a < b {
      Pow2Monotone(a, b - 1);
    }
  }

  /** A power of two that fits a `usize` has fewer than 64 trailing zeros. */
  lemma LogBelowWord(n: nat)
    requires IsPow2(n) && n < UsizeLimit
    ensures Pow2(TrailingZeros(n)) == n && TrailingZeros(n) < WordBits
  {
    Pow2Log(n);
    var k := TrailingZeros(n);
    if k >= WordBits {
      Pow2Monotone(WordBits, k);
      Pow2Word();
      assert false;
    }
  }

  lemma Pow2Word()
    ensures Pow2(WordBits) == UsizeLimit
  {
    var p8 := Pow2(8);
    assert p8 == 256;
    Pow2Add(8, 8);
    var p16 := Pow2(16);
    assert p16 == 0x1_0000;
    Pow2Add(16, 16);
    var p32 := Pow2(32);
    assert p32 == 0x1_0000_0000;
    Pow2Add(32, 32);
  }

  /** Every power of two is `Pow2` of its trailing zeros, and conversely. */
  lemma {:induction false} Pow2Log(n: nat)
    requires IsPow2(n)
    ensures Pow2(TrailingZeros(n)) == n
    decreases n
  {
    if n != 1 {
      Pow2Log(n / 2);
    }
  }

  lemma {:induction false} Pow2IsPow2(k: nat)
    ensures IsPow2(Pow2(k)) && TrailingZeros(Pow2(k)) == k
    decreases k
  {
    if k > 0 {
      Pow2IsPow2(k - 1);
      assert Pow2(k) / 2 == Pow2(k - 1);
    }
  }

  /** The low `k` bits of `i`, reversed. */
  function BitRev(i: nat, k: nat): nat
    decreases k
  {
    if k == 0 then 0 else (i % 2) * Pow2(k - 1) + BitRev(i / 2, k - 1)
  }

  lemma {:induction false} BitRevBound(i: nat, k: nat)
    ensures BitRev(i, k) < Pow2(k)
    decreases k
  {
    if k > 0 {
      BitRevBound(i / 2, k - 1);
      if i % 2 == 1 {
        assert BitRev(i, k) == Pow2(k - 1) + BitRev(i / 2, k - 1);
      }
    }
  }

  lemma {:induction false} BitRevZero(k: nat)
    ensures BitRev(0, k) == 0
    decreases k
  {
    if k > 0 {
      BitRevZero(k - 1);
    }
  }

  lemma DivDiv(i: nat, p: nat)
    requires p > 0
    ensures (i / 2) / p == i / (2 * p)
  {
    var q, r := (i / 2) / p, (i / 2) % p;
    assert i == 2 * (p * q + r) + i % 2;
    assert i == (2 * p) * q + (2 * r + i % 2);
    DivModUnique(i, 2 * p, q, 2 * r + i % 2);
  }

  /** `i >> a`. */
  function ShiftRight(i: nat, a: nat): nat
  {
    DivNonneg(i, Pow2(a));
    i / Pow2(a)
  }

  /** Reversing `a + b` bits: the low `a` bits land on top, the next `b`
      bits (shifted down) land at the bottom. */
  lemma {:induction false} BitRevSplit(i: nat, a: nat, b: nat)
    ensures BitRev(i, a + b) == BitRev(i, a) * Pow2(b) + BitRev(ShiftRight(i, a), b)
    decreases a
  {
    if a > 0 {
      BitRevSplit(i / 2, a - 1, b);
      Pow2Add(a - 1, b);
      DivDiv(i, Pow2(a - 1));
      SplitRegroup(i % 2, Pow2(a - 1), Pow2(b), BitRev(i / 2, a - 1));
    }
  }

  lemma SplitRegroup(bit: int, pa: int, pb: int, rest: int)
    ensures bit * (pa * pb) + rest * pb == (bit * pa + rest) * pb
  {
  }

  /** `i.reverse_bits() >> (usize::BITS - log_n)` is the `log_n`-bit reversal
      of every index below `2^log_n`. */
  lemma ReverseBitsShift(i: nat, k: nat)
    requires k <= WordBits && i < Pow2(k)
    ensures ShiftRight(BitRev(i, WordBits), WordBits - k) == BitRev(i, k)
  {
    DropLowReversal(i, k, WordBits - k);
  }

  lemma DropLowReversal(i: nat, k: nat, w: nat)
    requires i < Pow2(k)
    ensures BitRev(i, k + w) / Pow2(w) == BitRev(i, k)
  {
    HighBitsZero(i, k, w);
    DivModUnique(BitRev(i, k + w), Pow2(w), BitRev(i, k), 0);
  }

  lemma HighBitsZero(i: nat, k: nat, w: nat)
    requires i < Pow2(k)
    ensures BitRev(i, k + w) == Pow2(w) * BitRev(i, k) + 0
  {
    var p := Pow2(k);
    DivModUnique(i, p, 0, i);
    var z := i / p;
    BitRevZero(w);
    assert BitRev(z, w) == 0;
    BitRevSplit(i, k, w);
    var a, b := BitRev(i, k), Pow2(w);
    assert BitRev(i, k + w) == a * b + 0;
    assert a * b == b * a;
  }

  lemma ModDouble(x: nat, p: nat)
    requires p > 0
    ensures (x % (2 * p)) % 2 == x % 2
    ensures (x % (2 * p)) / 2 == (x / 2) % p
  {
    var q, r := (x / 2) / p, (x / 2) % p;
    assert x == (2 * p) * q + (2 * r + x % 2);
    DivModUnique(x, 2 * p, q, 2 * r + x % 2);
    DivModUnique(2 * r + x % 2, 2, r, x % 2);
  }

  /** Only the low `k` bits take part in the reversal. */
  lemma {:induction false} BitRevLow(x: nat, k: nat)
    ensures BitRev(x, k) == BitRev(x % Pow2(k), k)
    decreases k
  {
    if k > 0 {
      ModDouble(x, Pow2(k - 1));
      BitRevLow(x / 2, k - 1);
      BitRevLow((x % Pow2(k)) / 2, k - 1);
    }
  }

  /** Bit reversal is an involution on `[0, 2^k)`. */
  lemma {:induction false} BitRevInvolution(i: nat, k: nat)
    requires i < Pow2(k)
    ensures BitRev(BitRev(i, k), k) == i
    decreases k
  {
    if k > 0 {
      var r := BitRev(i, k);
      // the top bit of r is the low bit of i; the rest is the reversal of i / 2
      TopBit(i, k);
      BitRevLast(r, k);
      BitRevLow(r, k - 1);
      BitRevInvolution(i / 2, k - 1);
    }
  }

  /** Reversing `k` bits puts bit `k - 1` at the bottom. */
  lemma BitRevLast(r: nat, k: nat)
    requires k > 0
    ensures BitRev(r, k) == 2 * BitRev(r, k - 1) + ShiftRight(r, k - 1) % 2
  {
    BitRevSplit(r, k - 1, 1);
    assert Pow2(1) == 2;
    var top := ShiftRight(r, k - 1);
    assert BitRev(top, 1) == top % 2;
  }

  /** The reversal of `k` bits of `i` has the low bit of `i` on top and the
      reversal of the other `k - 1` bits below it. */
  lemma TopBit(i: nat, k: nat)
    requires k > 0
    ensures ShiftRight(BitRev(i, k), k - 1) == i % 2
    ensures BitRev(i, k) % Pow2(k - 1) == BitRev(i / 2, k - 1)
  {
    var p := Pow2(k - 1);
    var low := BitRev(i / 2, k - 1);
    BitRevBound(i / 2, k - 1);
    assert BitRev(i, k) == (i % 2) * p + low;
    DivModUnique(BitRev(i, k), p, i % 2, low);
  }

  /** `bit_reverse` and the `bit_rev` table give an involutive permutation of
      the indices of a slice of length `2^k`. */
  lemma BitRevPermutation(k: nat)
    ensures forall i :: 0 <= i < Pow2(k) ==> BitRev(i, k) < Pow2(k) && BitRev(BitRev(i, k), k) == i
  {
    forall i | 0 <= i < Pow2(k)
      ensures BitRev(i, k) < Pow2(k) && BitRev(BitRev(i, k), k) == i
    {
      BitRevBound(i, k);
      BitRevInvolution(i, k);
    }
  }

  /** The slice after the bit-reversal permutation of a power-of-two length. */
  function BitReversed(s: seq<nat>): (r: seq<nat>)
    requires IsPow2(|s|)
    ensures |r| == |s|
  {
    Pow2Log(|s|);
    var k := TrailingZeros(|s|);
    BitRevPermutation(k);
    seq(|s|, x requires 0 <= x < |s| => s[BitRev(x, k)])
  }

  /** Entry `x` of the permuted slice is entry `rev(x)` of the original. */
  lemma BitReversedAt(s: seq<nat>, x: nat)
    requires IsPow2(|s|) && x < |s|
    ensures Pow2(TrailingZeros(|s|)) == |s|
    ensures BitRev(x, TrailingZeros(|s|)) < |s| && BitReversed(s)[x] == s[BitRev(x, TrailingZeros(|s|))]
  {
    Pow2Log(|s|);
    BitRevPermutation(TrailingZeros(|s|));
  }

  lemma BitReversedTwice(s: seq<nat>)
    requires IsPow2(|s|)
    ensures BitReversed(BitReversed(s)) == s
  {
    var t := BitReversed(s);
    var k := TrailingZeros(|s|);
    Pow2Log(|s|);
    BitRevPermutation(k);
    forall x | 0 <= x < |s|
      ensures BitReversed(t)[x] == s[x]
    {
      BitReversedAt(t, x);
      BitReversedAt(s, BitRev(x, k));
    }
  }

  /** The start of the block of length `len` that holds index `x`. */
  function BlockStart(x: nat, len: nat): (b: nat)
    requires len > 0
    ensures b <= x < b + len && b % len == 0
  {
    DivModUnique(x, len, x / len, x % len);
    MulModZero(len, x / len);
    x - x % len
  }

  /** Offset `o` of the block that starts at the multiple `i` of `len`. */
  lemma BlockStartOf(i: nat, o: nat, len: nat)
    requires len > 0 && i % len == 0 && o < len
    ensures BlockStart(i + o, len) == i
  {
    BlockOffset(i, o, len);
  }

  /** A power of two is a multiple of every smaller power of two. */
  lemma Pow2Multiple(l: nat, k: nat)
    requires l <= k
    ensures Pow2(k) % Pow2(l) == 0
  {
    Pow2Add(l, k - l);
    MulModZero(Pow2(l), Pow2(k - l));
  }

  /** A power of two divides every power of two at least as large. */
  lemma Pow2Divides(d: nat, n: nat)
    requires IsPow2(d) && IsPow2(n) && d <= n
    ensures n % d == 0
  {
    Pow2Log(d);
    Pow2Log(n);
    var l, k := TrailingZeros(d), TrailingZeros(n);
    if l > k {
      Pow2Monotone(k + 1, l);
      assert false;
    }
    Pow2Multiple(l, k);
  }

  /** Four times a power of two is a power of two. */
  lemma Pow2Quad(n: nat)
    requires IsPow2(n)
    ensures IsPow2(4 * n)
  {
    assert (2 * n) / 2 == n;
    assert IsPow2(2 * n);
    assert (4 * n) / 2 == 2 * n;
  }

  /** Position `o` of the block that starts at the multiple `i` of `len`. */
  lemma BlockOffset(i: nat, o: nat, len: nat)
    requires len > 0 && i % len == 0 && o < len
    ensures (i + o) % len == o
  {
    DivModUnique(i + o, len, i / len, o);
  }

  /** A block that starts below `n` ends within `n` when both are multiples
      of `len`. */
  lemma BlockFits(i: nat, n: nat, len: nat)
    requires len > 0 && i % len == 0 && n % len == 0 && i < n
    ensures i + len <= n && (i + len) % len == 0
  {
    var a, b := i / len, n / len;
    assert i == len * a && n == len * b;
    if a >= b {
      MulMonotone(len, b, a);
      assert false;
    }
    MulMonotone(len, a + 1, b);
    ModShift(i, 1, len);
  }

  lemma MulMonotone(m: nat, a: nat, b: nat)
    requires a <= b
    ensures m * a <= m * b
  {
    if m > 0 && a < b {
      MulAtLeast(m, b - a);
      assert m * b - m * a == m * (b - a);
    }
  }
}
