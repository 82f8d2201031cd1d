/**
 * `UltraFheContext` of src/lib.rs: a context of fixed power-of-two size over
 * the fixed modulus 180143985094819841, with two tables computed once by the
 * constructor -- the `log2 n`-bit reversal of every index and one twiddle
 * triple `[w, w^2, w^3]` per radix-4 stage -- and a coefficient vector that
 * a linear congruential key generator and a radix-4 transform overwrite in
 * place. The transform is modelled as written: every butterfly of a stage
 * uses the same triple, and the butterfly combines its four twiddled inputs
 * with signs only (a Walsh-Hadamard step), with no fourth root of unity.
 */
module UltraFhe {
  import opened NumberTheory
  import opened Bits
  import opened Modular
  import opened NttRadix4
  import opened FheNtt

  /** The modulus every context uses. */
  const UltraModulus: nat := 180143985094819841
  /** The base of the stage roots. */
  const PrimitiveRoot: nat := 7
  /** The key generator's seed and its multiplier and increment. */
  const SeedStart: nat := 0xDEAD_BEEF_CAFE_BABE
  const LcgMultiplier: nat := 6364136223846793005
  const LcgIncrement: nat := 1442695040888963407
  /** A `Vec<u64>` holds at most `isize::MAX` bytes: fewer than 2^60 entries. */
  const MaxSize: nat := 0x1000_0000_0000_0000

  /** An entry of the twiddle table: `[w, w^2, w^3]`. */
  datatype Triple = Triple(w1: nat, w2: nat, w3: nat)

  /** Every entry is below `m`. */
  predicate Below(s: seq<nat>, m: nat)
  {
    forall x :: 0 <= x < |s| ==> s[x] < m
  }

  // ---------------------------------------------------------------------
  // The tables

  /** `precompute_bitrev`'s table: entry `i` is the `log2 n`-bit reversal of `i`. */
  function BitRevTable(n: nat): (r: seq<nat>)
    requires IsPow2(n)
    ensures |r| == n
  {
    seq(n, i requires 0 <= i < n => BitRev(i, TrailingZeros(n)))
  }

  /** The bit-reversal table is a permutation of the indices that is its own
      inverse. */
  lemma BitRevTablePermutation(n: nat)
    requires IsPow2(n)
    ensures forall i :: 0 <= i < n ==> BitRevTable(n)[i] < n && BitRevTable(n)[BitRevTable(n)[i]] == i
  {
    Pow2Log(n);
    BitRevPermutation(TrailingZeros(n));
  }

  /** `precompute_bitrev`: entry `i` is `i.reverse_bits() >> (64 - log2 n)`. */
  method PrecomputeBitrev(n: nat) returns (rev: seq<nat>)
    requires IsPow2(n) && n < UsizeLimit
    ensures rev == BitRevTable(n)
  {
    var table := new nat[n];
    var logN := TrailingZeros(n);
    LogBelowWord(n);
    ghost var goal := BitRevTable(n);
    for i := 0 to n
      invariant table[..i] == goal[..i]
    {
      ghost var prev := table[..];
      table[i] := ShiftedReversal(i, logN);
      PrefixGrows(prev, table[..], goal, i);
    }
    assert table[..] == table[..n];
    rev := table[..];
  }

  /** Entry `i` of the table as `precompute_bitrev` computes it: the 64-bit
      reversal of `i` shifted down by `64 - k`, which is its `k`-bit reversal. */
  function ShiftedReversal(i: nat, k: nat): (r: nat)
    requires k < WordBits && i < Pow2(k)
    ensures r == BitRev(i, k)
  {
    ReverseBitsShift(i, k);
    ShiftRight(ReverseBits(i), WordBits - k)
  }

  /** `mul_mod` of the context and `mod_mul` of `precompute_twiddles_radix4`:
      the product of two words, formed in `u128` where it cannot wrap, reduced
      modulo `m`. It agrees with the library's `mod_mul`. */
  function WideMulMod(a: nat, b: nat, m: nat): (r: nat)
    requires a < U64 && b < U64 && 1 <= m < U64
    ensures r < m && r == ModMul(a, b, m)
  {
    WideMulModAgrees(a, b, m);
    ((a * b) % U128) % m
  }

  lemma WideMulModAgrees(a: nat, b: nat, m: nat)
    requires a < U64 && b < U64 && 1 <= m < U64
    ensures ((a * b) % U128) % m == ModMul(a, b, m) && ModMul(a, b, m) == (a * b) % m
  {
    MulMono(a, U64 - 1, b, U64 - 1);
    assert (U64 - 1) * (U64 - 1) < U128;
    DivModUnique(a * b, U128, 0, a * b);
    if m == 1 {
      DivModUnique(a * b, 1, a * b, 0);
    }
  }

  /** The inner `mod_pow` of `precompute_twiddles_radix4`: square-and-multiply
      with `u128` products. Like the `mod_pow` of fhe-ntt it returns 1, not
      `1 mod m`, for exponent 0. */
  method TwiddlePow(base0: nat, exp0: nat, m: nat) returns (r: nat)
    requires base0 < U64 && exp0 < U64 && 1 <= m < U64
    ensures r == ContextPow(base0, exp0, m)
  {
    var result: nat := 1;
    var base: nat := base0 % m;
    var exp: nat := exp0;
    PowModBase(base0, exp0, m);
    ModOfMod(1, m);
    while exp > 0
      invariant base < m && (result == 1 || result < m)
      invariant (result * Pow(base, exp)) % m == Pow(base0, exp0) % m
      invariant exp0 == 0 || exp > 0 || result < m
      invariant exp0 == 0 ==> exp == 0 && result == 1
    {
      PowLoopStep(result, base, exp, m);
      if exp % 2 == 1 {
        result := WideMulMod(result, base, m);
      }
      base := WideMulMod(base, base, m);
      exp := exp / 2;
    }
    if exp0 > 0 {
      assert Pow(base, 0) == 1;
      DivModUnique(result, m, 0, result);
      ResidueMod(Pow(base0, exp0), m);
    }
    r := result;
  }

  /** The triple of the stage of length `len`: `w = 7^((m - 1) / len)`, then
      `w * w` and `w^2 * w`, each reduced modulo `m`. */
  function StageTriple(len: nat, m: nat): (t: Triple)
    requires len >= 1 && 1 <= m < U64
    ensures t.w1 < U64 && t.w2 < m && t.w3 < m
  {
    var w := ContextPow(PrimitiveRoot, StageExponent(m, len), m);
    var w2 := WideMulMod(w, w, m);
    Triple(w, w2, WideMulMod(w2, w, m))
  }

  /** The triple holds the first three powers of the stage root. */
  lemma StageTriplePowers(len: nat, m: nat)
    requires len >= 1 && 2 <= m < U64
    ensures var t := StageTriple(len, m);
      t.w1 % m == Pow(PrimitiveRoot, StageExponent(m, len)) % m &&
      t.w2 == Pow(t.w1, 2) % m && t.w3 == Pow(t.w1, 3) % m
  {
    var t := StageTriple(len, m);
    StageRootValue(len, m);
    WideMulModAgrees(t.w1, t.w1, m);
    WideMulModAgrees(t.w2, t.w1, m);
    PowersOf(t.w1, t.w2, t.w3, m);
  }

  /** The stage root is a power of 7 modulo `m`. */
  lemma StageRootValue(len: nat, m: nat)
    requires len >= 1 && 2 <= m < U64
    ensures ContextPow(PrimitiveRoot, StageExponent(m, len), m) % m == Pow(PrimitiveRoot, StageExponent(m, len)) % m
  {
    var e := StageExponent(m, len);
    if e == 0 {
      assert Pow(PrimitiveRoot, 0) == 1;
    } else {
      ContextPowAgrees(PrimitiveRoot, e, m);
      ModOfMod(Pow(PrimitiveRoot, e), m);
    }
  }

  lemma PowersOf(w: nat, w2: nat, w3: nat, m: nat)
    requires m >= 1 && w2 == (w * w) % m && w3 == (w2 * w) % m
    ensures w2 == Pow(w, 2) % m && w3 == Pow(w, 3) % m
  {
    assert Pow(w, 1) == w;
    assert Pow(w, 2) == w * w;
    assert Pow(w, 3) == (w * w) * w;
    ModOfMod(w, m);
    ModOfMod(w * w, m);
    CongMul(w2, w * w, w, w, m);
  }

  /** The table of `precompute_twiddles_radix4`: one triple for each stage
      length `len, 4 len, 16 len, ...` up to `n`. */
  function TwiddlesFrom(len: nat, n: nat, m: nat): (r: seq<Triple>)
    requires len >= 1 && 1 <= m < U64
    decreases n - len
  {
    if len > n then [] else [StageTriple(len, m)] + TwiddlesFrom(4 * len, n, m)
  }

  /** The table has an entry for the stage of length `len * 4^k` exactly
      when that length is at most `n`. */
  lemma {:induction false} TwiddlesCount(len: nat, n: nat, m: nat, k: nat)
    requires len >= 1 && 1 <= m < U64
    ensures k < |TwiddlesFrom(len, n, m)| <==> len * Pow(4, k) <= n
    decreases n - len
  {
    if len > n {
      PowPositive(4, k);
      MulAtLeast(len, Pow(4, k));
    } else if k == 0 {
      assert Pow(4, 0) == 1;
    } else {
      TwiddlesCount(4 * len, n, m, k - 1);
      StageLenStep(len, k);
      TwiddlesUnfold(len, n, m);
    }
  }

  /** Entry `k` of the table is the triple of the stage of length
      `len * 4^k`. */
  lemma {:induction false} TwiddlesAt(len: nat, n: nat, m: nat, k: nat)
    requires len >= 1 && 1 <= m < U64 && k < |TwiddlesFrom(len, n, m)|
    ensures len * Pow(4, k) >= 1
    ensures TwiddlesFrom(len, n, m)[k] == StageTriple(len * Pow(4, k), m)
    decreases n - len
  {
    assert len * Pow(4, k) >= 1 by {
      PowPositive(4, k);
      MulAtLeast(len, Pow(4, k));
    }
    if k == 0 {
      assert Pow(4, 0) == 1;
    } else {
      var rest := TwiddlesFrom(4 * len, n, m);
      assert TwiddlesFrom(len, n, m)[k] == rest[k - 1] by {
        TwiddlesUnfold(len, n, m);
      }
      TwiddlesAt(4 * len, n, m, k - 1);
      assert 4 * len * Pow(4, k - 1) == len * Pow(4, k) by {
        StageLenStep(len, k);
      }
    }
  }

  lemma StageLenStep(len: nat, k: nat)
    requires k >= 1
    ensures len * Pow(4, k) == 4 * len * Pow(4, k - 1)
  {
    assert Pow(4, k) == 4 * Pow(4, k - 1);
    MulAssoc4(len, Pow(4, k - 1));
  }

  lemma MulAssoc4(a: nat, p: nat)
    ensures 4 * a * p == a * (4 * p)
  {
  }

  /** `precompute_twiddles_radix4`: the loop over `len = 4, 16, 64, ...`
      while `len <= n` pushes one triple per stage. A size of at least 2^62
      would let `len <<= 2` wrap to 0. */
  method PrecomputeTwiddles(n: nat, m: nat) returns (twiddles: seq<Triple>)
    requires 4 * n < UsizeLimit && 1 <= m < U64
    ensures twiddles == TwiddlesFrom(4, n, m)
  {
    twiddles := [];
    var len: nat := 4;
    while len <= n
      invariant len >= 4
      invariant twiddles + TwiddlesFrom(len, n, m) == TwiddlesFrom(4, n, m)
      decreases n - len
    {
      StageExponentDiv(m, len);
      var angle := (m - 1) / len;
      var w := TwiddlePow(PrimitiveRoot, angle, m);
      var w2 := WideMulMod(w, w, m);
      var w3 := WideMulMod(w2, w, m);
      TwiddlesUnfold(len, n, m);
      twiddles := twiddles + [Triple(w, w2, w3)];
      assert 4 * len < UsizeLimit;
      len := len * 4;
    }
  }

  lemma TwiddlesUnfold(len: nat, n: nat, m: nat)
    requires 1 <= len <= n && 1 <= m < U64
    ensures TwiddlesFrom(len, n, m) == [StageTriple(len, m)] + TwiddlesFrom(4 * len, n, m)
  {
  }

  // ---------------------------------------------------------------------
  // The key generator

  /** One step of the generator: `seed * a + c` in wrapping `u128`. */
  function LcgNext(seed: nat): (r: nat)
    ensures r < U128
  {
    (seed * LcgMultiplier + LcgIncrement) % U128
  }

  /** The seed after `k` steps. */
  function LcgState(k: nat): nat
  {
    if k == 0 then SeedStart else LcgNext(LcgState(k - 1))
  }

  /** The first `k` keys: key `x` is the seed after `x + 1` steps, reduced
      modulo `m`. */
  function Keys(k: nat, m: nat): (r: seq<nat>)
    requires m >= 1
    ensures |r| == k && Below(r, m)
  {
    if k == 0 then [] else Keys(k - 1, m) + [LcgState(k) % m]
  }

  /** The keys of a smaller context are a prefix of those of a larger one. */
  lemma {:induction false} KeysPrefix(k: nat, l: nat, m: nat)
    requires m >= 1 && k <= l
    ensures Keys(k, m) == Keys(l, m)[..k]
    decreases l
  {
    if k < l {
      KeysPrefix(k, l - 1, m);
      assert Keys(l, m)[..l - 1] == Keys(l - 1, m);
    }
  }

  /** Key `x` is the seed after `x + 1` steps, reduced modulo `m`. */
  lemma KeysAt(k: nat, m: nat, x: nat)
    requires m >= 1 && x < k
    ensures Keys(k, m)[x] == LcgState(x + 1) % m
  {
    KeysPrefix(x + 1, k, m);
  }

  /** `wrapping_mul` then `wrapping_add` is one step of the generator. */
  lemma WrappingStep(seed: nat)
    ensures ((seed * LcgMultiplier) % U128 + LcgIncrement) % U128 == LcgNext(seed)
  {
    AddMod(seed * LcgMultiplier, LcgIncrement, U128);
    AddMod((seed * LcgMultiplier) % U128, LcgIncrement, U128);
    ModOfMod(seed * LcgMultiplier, U128);
  }

  // ---------------------------------------------------------------------
  // The transform

  /** The butterfly in exact arithmetic, reduced modulo `m`: the four signed
      sums of the twiddled inputs `x0 .. x3` (a Walsh-Hadamard step). */
  function Hadamard4(x0: int, x1: int, x2: int, x3: int, m: nat): (r: seq<nat>)
    requires m >= 1
    ensures |r| == 4
  {
    [Residue(x0 + x1 + x2 + x3, m), Residue(x0 + x1 - x2 - x3, m),
     Residue(x0 - x1 + x2 - x3, m), Residue(x0 - x1 - x2 + x3, m)]
  }

  /** Entry `o` of a block `t` after the butterflies of its stage: output `g`
      of the butterfly on column `j`, whose inputs `j + g * |t|/4` are
      multiplied by the same triple whatever `j` is. */
  function UltraBlockAt(t: seq<nat>, w: Triple, m: nat, o: nat): (r: nat)
    requires |t| >= 4 && |t| % 4 == 0 && o < |t| && m >= 1
    ensures r < m
  {
    var q := |t| / 4;
    var (g, j) := Column(o, q);
    Hadamard4(t[j], t[j + q] * w.w1, t[j + 2 * q] * w.w2, t[j + 3 * q] * w.w3, m)[g]
  }

  /** `UltraBlockAt` as a function of the position (zero past the block). */
  function UltraEntry(t: seq<nat>, w: Triple, m: nat): nat -> nat
    requires |t| >= 4 && |t| % 4 == 0 && m >= 1
  {
    (o: nat) => if o < |t| then UltraBlockAt(t, w, m, o) else 0
  }

  /** A block after the butterflies of its stage. */
  function UltraBlock(t: seq<nat>, w: Triple, m: nat): (r: seq<nat>)
    requires |t| >= 4 && |t| % 4 == 0 && m >= 1
    ensures |r| == |t| && Below(r, m)
  {
    var f := UltraEntry(t, w, m);
    var r := Tabulate(f, 0, |t|);
    assert Below(r, m) by {
      forall o | 0 <= o < |r| ensures r[o] < m {
        TabulateAt(f, 0, |t|, o);
      }
    }
    r
  }

  lemma UltraBlockEntry(t: seq<nat>, w: Triple, m: nat, o: nat)
    requires |t| >= 4 && |t| % 4 == 0 && o < |t| && m >= 1
    ensures UltraBlock(t, w, m)[o] == UltraBlockAt(t, w, m, o)
  {
    var f := UltraEntry(t, w, m);
    assert UltraBlock(t, w, m) == Tabulate(f, 0, |t|);
    TabulateAt(f, 0, |t|, o);
    assert f(o) == UltraBlockAt(t, w, m, o);
  }

  /** The slice after the stage of length `len` with the triple `w`. */
  function UltraStage(s: seq<nat>, len: nat, w: Triple, m: nat): (r: seq<nat>)
    requires len >= 4 && len % 4 == 0 && m >= 1
    ensures |r| == |s|
    decreases |s|
  {
    if |s| < len then s
    else UltraBlock(s[..len], w, m) + UltraStage(s[len..], len, w, m)
  }

  /** Appending a block to a slice of whole blocks appends its butterflies
      to the stage's output. */
  lemma {:induction false} UltraStageSnoc(p: seq<nat>, blk: seq<nat>, len: nat, w: Triple, m: nat)
    requires len >= 4 && len % 4 == 0 && m >= 1 && |p| % len == 0 && |blk| == len
    ensures UltraStage(p + blk, len, w, m) == UltraStage(p, len, w, m) + UltraBlock(blk, w, m)
    decreases |p|
  {
    if |p| < len {
      DivModUnique(|p|, len, 0, |p|);
      assert p + blk == blk;
      assert blk[..len] == blk && blk[len..] == [];
    } else {
      var head, rest := p[..len], p[len..];
      ModShift(|p| - len, 1, len);
      UltraStageSnoc(rest, blk, len, w, m);
      assert (p + blk)[..len] == head;
      assert (p + blk)[len..] == rest + blk;
    }
  }

  /** The stages of length `len`, `4 len`, ... that are at most `|s|`, each
      with its own triple. */
  function UltraStages(s: seq<nat>, len: nat, m: nat): (r: seq<nat>)
    requires len >= 4 && len % 4 == 0 && 1 <= m < U64
    ensures |r| == |s|
    decreases if len <= |s| then |s| - len + 1 else 0, 2
  {
    if len > |s| then s else UltraStagesFrom(s, len, m)
  }

  function UltraStagesFrom(s: seq<nat>, len: nat, m: nat): (r: seq<nat>)
    requires 4 <= len <= |s| && len % 4 == 0 && 1 <= m < U64
    ensures |r| == |s|
    decreases |s| - len + 1, 1
  {
    UltraStagesWith(s, len, m, StageTriple(len, m))
  }

  function UltraStagesWith(s: seq<nat>, len: nat, m: nat, w: Triple): (r: seq<nat>)
    requires 4 <= len <= |s| && len % 4 == 0 && 1 <= m < U64
    ensures |r| == |s|
    decreases |s| - len + 1, 0
  {
    UltraStages(UltraStage(s, len, w, m), NextLen(len), m)
  }

  /** What `ntt_ultrafast` leaves in the coefficients. */
  function UltraTransform(s: seq<nat>, m: nat): (r: seq<nat>)
    requires IsPow2(|s|) && 1 <= m < U64
    ensures |r| == |s|
  {
    UltraStages(BitReversed(s), 4, m)
  }

  // ---------------------------------------------------------------------
  // Properties of the transform

  /** The butterfly as the loop body computes it, with `u64` sums below
      `2 m`, is the exact signed combination `Hadamard4` reduced modulo `m`. */
  lemma UltraKernel(x0: int, x1: int, x2: int, x3: int, u1: int, u2: int, u3: int,
                    t0: int, t1: int, t2: int, t3: int, m: nat)
    requires 0 <= x0 < m && m >= 1
    requires u1 == x1 % m && u2 == x2 % m && u3 == x3 % m
    requires t0 == (x0 + u2) % m && t1 == (x0 + m - u2) % m
    requires t2 == (u1 + u3) % m && t3 == (u1 + m - u3) % m
    ensures var h := Hadamard4(x0, x1, x2, x3, m);
      (t0 + t2) % m == h[0] && (t1 + t3) % m == h[1] && (t0 + m - t2) % m == h[2] && (t1 + m - t3) % m == h[3]
  {
    ModOfMod(x1, m);
    ModOfMod(x2, m);
    ModOfMod(x3, m);
    ModOfMod(x0 + x2, m);
    ModOfMod(x0 - x2, m);
    ModOfMod(x1 + x3, m);
    ModOfMod(x1 - x3, m);
    ModOfMod(x0, m);
    ModShift(x0 - u2, 1, m);
    ModShift(u1 - u3, 1, m);
    CongAdd(x0, x0, u2, x2, m);
    CongSub(x0, x0, u2, x2, m);
    CongAdd(u1, x1, u3, x3, m);
    CongSub(u1, x1, u3, x3, m);
    CongAdd(t0, x0 + x2, t2, x1 + x3, m);
    CongAdd(t1, x0 - x2, t3, x1 - x3, m);
    CongSub(t0, x0 + x2, t2, x1 + x3, m);
    CongSub(t1, x0 - x2, t3, x1 - x3, m);
    ModShift(t0 - t2, 1, m);
    ModShift(t1 - t3, 1, m);
    ResidueMod(x0 + x1 + x2 + x3, m);
    ResidueMod(x0 + x1 - x2 - x3, m);
    ResidueMod(x0 - x1 + x2 - x3, m);
    ResidueMod(x0 - x1 - x2 + x3, m);
    assert x0 + x2 + (x1 + x3) == x0 + x1 + x2 + x3;
    assert x0 - x2 + (x1 - x3) == x0 + x1 - x2 - x3;
    assert x0 + x2 - (x1 + x3) == x0 - x1 + x2 - x3;
    assert x0 - x2 - (x1 - x3) == x0 - x1 - x2 + x3;
  }

  /** Every entry is zero. */
  predicate Zeros(s: seq<nat>)
  {
    forall x :: 0 <= x < |s| ==> s[x] == 0
  }

  /** The coefficients of a fresh context are all zero, and the transform
      keeps them so. */
  lemma UltraZeros(z: seq<nat>, m: nat)
    requires IsPow2(|z|) && 1 <= m < U64 && Zeros(z)
    ensures Zeros(UltraTransform(z, m))
  {
    forall x | 0 <= x < |z| ensures BitReversed(z)[x] == 0 {
      BitReversedAt(z, x);
    }
    StagesZeros(BitReversed(z), 4, m);
  }

  lemma {:induction false} StagesZeros(z: seq<nat>, len: nat, m: nat)
    requires len >= 4 && len % 4 == 0 && 1 <= m < U64 && Zeros(z)
    ensures Zeros(UltraStages(z, len, m))
    decreases if len <= |z| then |z| - len + 1 else 0
  {
    if len <= |z| {
      var w := StageTriple(len, m);
      var next := UltraStage(z, len, w, m);
      StageZeros(z, len, w, m);
      StagesZeros(next, NextLen(len), m);
      UltraStagesStep(z, next, len, m, w);
    }
  }

  lemma {:induction false} StageZeros(z: seq<nat>, len: nat, w: Triple, m: nat)
    requires len >= 4 && len % 4 == 0 && m >= 1 && Zeros(z)
    ensures Zeros(UltraStage(z, len, w, m))
    decreases |z|
  {
    if |z| >= len {
      var head, rest := z[..len], z[len..];
      BlockZeros(head, w, m);
      StageZeros(rest, len, w, m);
      var r := UltraBlock(head, w, m) + UltraStage(rest, len, w, m);
      assert forall x :: 0 <= x < |r| ==> r[x] == if x < len then UltraBlock(head, w, m)[x] else UltraStage(rest, len, w, m)[x - len];
    }
  }

  lemma BlockZeros(t: seq<nat>, w: Triple, m: nat)
    requires |t| >= 4 && |t| % 4 == 0 && m >= 1 && Zeros(t)
    ensures Zeros(UltraBlock(t, w, m))
  {
    var q := |t| / 4;
    forall o | 0 <= o < |t|
      ensures UltraBlock(t, w, m)[o] == 0
    {
      UltraBlockEntry(t, w, m, o);
      var (g, j) := Column(o, q);
      assert t[j] == 0 && t[j + q] == 0 && t[j + 2 * q] == 0 && t[j + 3 * q] == 0;
      HadamardZero(w, m);
    }
  }

  lemma HadamardZero(w: Triple, m: nat)
    requires m >= 1
    ensures Hadamard4(0, 0 * w.w1, 0 * w.w2, 0 * w.w3, m) == [0, 0, 0, 0]
  {
    ResidueMod(0, m);
  }

  // ---------------------------------------------------------------------
  // The context

  /** `UltraFheContext`: the coefficient vector, rewritten in place, and the
      fields fixed by the constructor. */
  class UltraFheContext {
    const coeffs: array<nat>
    const size: nat
    const modulus: nat
    const bitRev: seq<nat>
    const twiddles: seq<Triple>

    /** The constructor's guarantees, which the operations keep: the tables
        match the size and the modulus, and every coefficient is reduced. */
    predicate Valid()
      reads coeffs
    {
      coeffs.Length == size && IsPow2(size) && 4 <= size < MaxSize &&
      modulus == UltraModulus && bitRev == BitRevTable(size) &&
      twiddles == TwiddlesFrom(4, size, modulus) && Below(coeffs[..], modulus)
    }

    /** `new_optimized`: panics unless the size is a power of two and at
        least 4; the coefficients start at zero. */
    constructor NewOptimized(size: nat)
      requires IsPow2(size) && 4 <= size < MaxSize
      ensures Valid() && fresh(coeffs) && this.size == size
      ensures coeffs[..] == seq(size, _ => 0)
    {
      var rev := PrecomputeBitrev(size);
      var tw := PrecomputeTwiddles(size, UltraModulus);
      var zeros := new nat[size](_ => 0);
      this.size := size;
      modulus := UltraModulus;
      coeffs := zeros;
      bitRev := rev;
      twiddles := tw;
      new;
      assert coeffs[..] == seq(size, _ => 0);
    }

    /** `mul_mod`. */
    function MulMod(a: nat, b: nat): (r: nat)
      requires a < U64 && b < U64 && 1 <= modulus < U64
      ensures r < modulus && r == ModMul(a, b, modulus)
    {
      WideMulMod(a, b, modulus)
    }

    /** `get_coeff`: the coefficient at `index`, or 0 past the end. */
    function GetCoeff(index: nat): (r: nat)
      requires Valid()
      reads coeffs
      ensures r < modulus
      ensures index < size ==> r == coeffs[index]
      ensures index >= size ==> r == 0
    {
      if index < size then coeffs[index] else 0
    }

    /** `generate_keys`: coefficient `i` becomes the generator's seed after
        `i + 1` steps, reduced modulo the modulus; returns the size in bytes. */
    method GenerateKeys() returns (bytes: nat)
      requires Valid()
      modifies coeffs
      ensures Valid() && coeffs[..] == Keys(size, modulus) && bytes == size * 8
    {
      var seed: nat := SeedStart;
      for i := 0 to coeffs.Length
        invariant seed == LcgState(i)
        invariant coeffs[..i] == Keys(i, modulus)
      {
        WrappingStep(seed);
        seed := ((seed * LcgMultiplier) % U128 + LcgIncrement) % U128;
        coeffs[i] := seed % modulus;
        assert coeffs[..i + 1] == coeffs[..i] + [coeffs[i]];
      }
      assert coeffs[..] == coeffs[..coeffs.Length];
      bytes := size * 8;
    }

    /** `ntt_ultrafast`: the bit-reversal permutation through the table, then
        the radix-4 stages, stage `k` with the `k`-th triple of the table. */
    method NttUltrafast()
      requires Valid()
      modifies coeffs
      ensures Valid() && coeffs[..] == UltraTransform(old(coeffs[..]), modulus)
    {
      ghost var s0 := coeffs[..];
      TableBitReverse(coeffs, bitRev);
      BitReversedBelow(s0, modulus);
      RunUltraStages(coeffs, twiddles, modulus);
    }
  }

  /** The bit-reversal loop of `ntt_ultrafast`: entry `i` trades places with
      entry `rev[i]` when `i < rev[i]`. */
  method TableBitReverse(a: array<nat>, rev: seq<nat>)
    requires IsPow2(a.Length) && rev == BitRevTable(a.Length)
    modifies a
    ensures a[..] == BitReversed(old(a[..]))
  {
    var n := a.Length;
    ghost var s := a[..];
    ghost var k := TrailingZeros(n);
    Pow2Log(n);
    PartlyReversedStart(s, k);
    for i := 0 to n
      invariant a[..] == PartlyReversed(s, k, i)
    {
      var j := rev[i];
      BitRevBound(i, k);
      ghost var prev := a[..];
      if i < j {
        Swap(a, i, j);
      }
      PartlyReversedStep(s, k, i, j, prev, a[..]);
    }
    PartlyReversedEnd(s, k);
  }

  lemma BitReversedBelow(s: seq<nat>, m: nat)
    requires IsPow2(|s|) && Below(s, m)
    ensures Below(BitReversed(s), m)
  {
    forall x | 0 <= x < |s|
      ensures BitReversed(s)[x] < m
    {
      BitReversedAt(s, x);
    }
  }

  /** The stage loop of `ntt_ultrafast`: lengths 4, 16, 64, ... up to the
      size, with a stage index that stays inside the twiddle table. */
  method RunUltraStages(a: array<nat>, twiddles: seq<Triple>, m: nat)
    requires IsPow2(a.Length) && 4 <= a.Length && 1 <= m <= I64 && Below(a[..], m)
    requires twiddles == TwiddlesFrom(4, a.Length, m)
    modifies a
    ensures Below(a[..], m) && a[..] == UltraStages(old(a[..]), 4, m)
  {
    var n := a.Length;
    ghost var s0 := a[..];
    var len: nat := 4;
    var stage: nat := 0;
    while len <= n
      invariant IsPow2(len) && len >= 4 && len % 4 == 0
      invariant stage <= |twiddles| && twiddles[stage..] == TwiddlesFrom(len, n, m)
      invariant Below(a[..], m)
      invariant UltraStages(a[..], len, m) == UltraStages(s0, 4, m)
      decreases n - len
    {
      TwiddleTableStep(twiddles, stage, len, n, m);
      var w := twiddles[stage];
      Pow2Divides(len, n);
      ghost var cur := a[..];
      RunUltraStage(a, len, w, m);
      UltraStagesStep(cur, a[..], len, m, w);
      Pow2Quad(len);
      len := NextLen(len);
      stage := stage + 1;
    }
  }

  /** While `len <= n`, the stage index points at the triple of the stage
      of length `len`. */
  lemma TwiddleTableStep(twiddles: seq<Triple>, stage: nat, len: nat, n: nat, m: nat)
    requires 1 <= len <= n && 1 <= m < U64
    requires stage <= |twiddles| && twiddles[stage..] == TwiddlesFrom(len, n, m)
    ensures stage < |twiddles| && twiddles[stage] == StageTriple(len, m)
    ensures twiddles[stage + 1..] == TwiddlesFrom(4 * len, n, m)
  {
    TwiddlesUnfold(len, n, m);
    assert twiddles[stage + 1..] == twiddles[stage..][1..];
  }

  /** Running one stage and then the longer ones is running them all. */
  lemma UltraStagesStep(cur: seq<nat>, next: seq<nat>, len: nat, m: nat, w: Triple)
    requires 4 <= len <= |cur| && len % 4 == 0 && 1 <= m < U64 && w == StageTriple(len, m)
    requires next == UltraStage(cur, len, w, m)
    ensures UltraStages(next, NextLen(len), m) == UltraStages(cur, len, m)
  {
    assert UltraStages(cur, len, m) == UltraStagesFrom(cur, len, m) == UltraStagesWith(cur, len, m, w);
  }

  /** One stage of `ntt_ultrafast`: the blocks of length `len`, one after
      the other. */
  method RunUltraStage(a: array<nat>, len: nat, w: Triple, m: nat)
    requires len >= 4 && len % 4 == 0 && a.Length % len == 0
    requires 1 <= m <= I64 && w.w1 < U64 && w.w2 < U64 && w.w3 < U64 && Below(a[..], m)
    modifies a
    ensures Below(a[..], m) && a[..] == UltraStage(old(a[..]), len, w, m)
  {
    var n := a.Length;
    ghost var s := a[..];
    var i: nat := 0;
    while i < n
      invariant i <= n && i % len == 0 && Below(a[..], m)
      invariant a[..i] == UltraStage(s[..i], len, w, m) && a[i..] == s[i..]
    {
      BlockFits(i, n, len);
      ghost var prev := a[..];
      RunUltraBlock(a, i, len, w, m);
      UltraStageStep(s, prev, a[..], i, len, w, m);
      i := i + len;
    }
    assert a[..] == a[..n] && s == s[..n];
  }

  /** Running the block at `i` extends the finished part of the stage by
      one block. */
  lemma UltraStageStep(s: seq<nat>, prev: seq<nat>, cur: seq<nat>, i: nat, len: nat, w: Triple, m: nat)
    requires len >= 4 && len % 4 == 0 && i % len == 0 && i + len <= |s| && m >= 1
    requires |prev| == |s| && prev[..i] == UltraStage(s[..i], len, w, m) && prev[i..] == s[i..]
    requires |cur| == |prev| && cur[..i] == prev[..i] && cur[i + len..] == prev[i + len..]
    requires cur[i..i + len] == UltraBlock(prev[i..i + len], w, m)
    ensures cur[..i + len] == UltraStage(s[..i + len], len, w, m) && cur[i + len..] == s[i + len..]
  {
    assert prev[i..i + len] == s[i..i + len];
    UltraStageSnoc(s[..i], s[i..i + len], len, w, m);
    assert s[..i] + s[i..i + len] == s[..i + len];
    assert cur[..i + len] == cur[..i] + cur[i..i + len];
  }

  /** The butterflies of the block at `i`, all with the same triple. */
  method RunUltraBlock(a: array<nat>, i: nat, len: nat, w: Triple, m: nat)
    requires len >= 4 && len % 4 == 0 && i + len <= a.Length
    requires 1 <= m <= I64 && w.w1 < U64 && w.w2 < U64 && w.w3 < U64 && Below(a[..], m)
    modifies a
    ensures Below(a[..], m)
    ensures a[..i] == old(a[..i]) && a[i + len..] == old(a[i + len..])
    ensures a[i..i + len] == UltraBlock(old(a[i..i + len]), w, m)
  {
    ghost var s := a[..];
    ghost var t := a[i..i + len];
    ghost var goal := UltraBlock(t, w, m);
    var q := len / 4;
    assert |t| == len && |t| / 4 == q && 4 * q == len;
    NttRadix4.BlockStart(s, i, t, goal);
    for j := 0 to q
      invariant Below(a[..], m)
      invariant Outside(a[..], s, i, len)
      invariant BlockPartly(a[..], i, t, goal, j)
    {
      UltraColumn(a, i, q, j, w, m, s, t, goal);
    }
    BlockEnd(a[..], s, i, t, goal);
  }

  /** One pass of the inner loop of `ntt_ultrafast`: the butterfly on column
      `j` of the block at `i`. */
  method UltraColumn(a: array<nat>, i: nat, q: nat, j: nat, w: Triple, m: nat,
                     ghost s: seq<nat>, ghost t: seq<nat>, ghost goal: seq<nat>)
    requires |t| == 4 * q && |t| % 4 == 0 && j < q && Below(a[..], m)
    requires 1 <= m <= I64 && w.w1 < U64 && w.w2 < U64 && w.w3 < U64 && goal == UltraBlock(t, w, m)
    requires Outside(a[..], s, i, |t|) && BlockPartly(a[..], i, t, goal, j)
    modifies a
    ensures Below(a[..], m) && Outside(a[..], s, i, |t|) && BlockPartly(a[..], i, t, goal, j + 1)
  {
    ghost var prev := a[..];
    UltraButterfly(a, i + j, q, w, m);
    UltraColumnStep(prev, a[..], s, i, t, w, m, goal, q, j);
  }

  /** Butterfly `j` writes the block's outputs into its column. */
  lemma UltraColumnStep(prev: seq<nat>, cur: seq<nat>, s: seq<nat>, i: nat, t: seq<nat>, w: Triple, m: nat,
                        goal: seq<nat>, q: nat, j: nat)
    requires |t| == 4 * q && |t| % 4 == 0 && j < q && m >= 1 && goal == UltraBlock(t, w, m)
    requires Outside(prev, s, i, |t|) && BlockPartly(prev, i, t, goal, j)
    requires i + |t| <= |prev| && cur == UltraApplied(prev, i + j, q, w, m)
    ensures Outside(cur, s, i, |t|) && BlockPartly(cur, i, t, goal, j + 1)
  {
    ColumnInputs(prev, i, t, goal, q, j);
    var out := Hadamard4(t[j], t[j + q] * w.w1, t[j + 2 * q] * w.w2, t[j + 3 * q] * w.w3, m);
    UltraColumnOut(t, w, m, q, j);
    assert cur == prev[i + j := out[0]][i + j + q := out[1]][i + j + 2 * q := out[2]][i + j + 3 * q := out[3]];
    BlockStep(prev, cur, s, i, t, goal, q, j, out);
  }

  /** Column `j` of a block holds the outputs of its butterfly. */
  lemma UltraColumnOut(t: seq<nat>, w: Triple, m: nat, q: nat, j: nat)
    requires |t| == 4 * q && |t| % 4 == 0 && j < q && m >= 1
    ensures var out := Hadamard4(t[j], t[j + q] * w.w1, t[j + 2 * q] * w.w2, t[j + 3 * q] * w.w3, m);
      var goal := UltraBlock(t, w, m);
      goal[j] == out[0] && goal[j + q] == out[1] && goal[j + 2 * q] == out[2] && goal[j + 3 * q] == out[3]
  {
    UltraColumnEntry(t, w, m, q, j, 0, j);
    UltraColumnEntry(t, w, m, q, j, 1, j + q);
    UltraColumnEntry(t, w, m, q, j, 2, j + 2 * q);
    UltraColumnEntry(t, w, m, q, j, 3, j + 3 * q);
  }

  /** Position `o` of a block, in row `g` of column `j`, holds output `g` of
      that column's butterfly. */
  lemma UltraColumnEntry(t: seq<nat>, w: Triple, m: nat, q: nat, j: nat, g: nat, o: nat)
    requires |t| == 4 * q && |t| % 4 == 0 && j < q && g < 4 && o < |t| && m >= 1 && Column(o, q) == (g, j)
    ensures UltraBlock(t, w, m)[o] == Hadamard4(t[j], t[j + q] * w.w1, t[j + 2 * q] * w.w2, t[j + 3 * q] * w.w3, m)[g]
  {
    assert |t| / 4 == q;
    UltraBlockEntry(t, w, m, o);
  }

  /** `x` with the butterfly on the entries `c`, `c + q`, `c + 2q`, `c + 3q`
      written back in place. */
  function UltraApplied(x: seq<nat>, c: nat, q: nat, w: Triple, m: nat): (r: seq<nat>)
    requires c + 3 * q < |x| && m >= 1
    ensures |r| == |x|
  {
    var out := Hadamard4(x[c], x[c + q] * w.w1, x[c + 2 * q] * w.w2, x[c + 3 * q] * w.w3, m);
    x[c := out[0]][c + q := out[1]][c + 2 * q := out[2]][c + 3 * q := out[3]]
  }

  /** The body of the inner loop of `ntt_ultrafast`. */
  method UltraButterfly(a: array<nat>, c: nat, q: nat, w: Triple, m: nat)
    requires c + 3 * q < a.Length && Below(a[..], m)
    requires 1 <= m <= I64 && w.w1 < U64 && w.w2 < U64 && w.w3 < U64
    modifies a
    ensures Below(a[..], m) && a[..] == UltraApplied(old(a[..]), c, q, w, m)
  {
    var u0 := a[c];
    var u1 := WideMulMod(a[c + q], w.w1, m);
    var u2 := WideMulMod(a[c + 2 * q], w.w2, m);
    var u3 := WideMulMod(a[c + 3 * q], w.w3, m);
    var t0 := (u0 + u2) % m;
    var t1 := (u0 + m - u2) % m;
    var t2 := (u1 + u3) % m;
    var t3 := (u1 + m - u3) % m;
    UltraKernel(a[c], a[c + q] * w.w1, a[c + 2 * q] * w.w2, a[c + 3 * q] * w.w3, u1, u2, u3, t0, t1, t2, t3, m);
    a[c] := (t0 + t2) % m;
    a[c + q] := (t1 + t3) % m;
    a[c + 2 * q] := (t0 + m - t2) % m;
    a[c + 3 * q] := (t1 + m - t3) % m;
  }
}
