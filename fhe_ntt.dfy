/**
 * The `fhe-ntt` crate (fhe-ntt/src/lib.rs): an `FHEContext` holding a
 * modulus, a root and a size, a radix-2 Cooley-Tukey transform over the
 * stages of length 2, 4, 8, ... that works on the slice in its natural
 * order (the crate applies no bit-reversal permutation), and an inverse that
 * runs the same transform, reverses all entries but the first and scales by
 * `n^(m-2) mod m`.
 *
 * Rust's `u64` arithmetic is exact here: every operation of the transform is
 * shown not to overflow under the preconditions, which are what keeps the
 * source from panicking (an underflowing `modulus - 1` or `modulus - 2`, an
 * out-of-range index, an overflowing product).
 */
module FheNtt {
  import opened NumberTheory
  import opened Bits
  import opened Modular
  import opened NttRadix4

  const U32: nat := 0x1_0000_0000

  /** `FHEContext` (`FHEContext::new` stores its three arguments). */
  datatype FheContext = FheContext(modulus: nat, root: nat, size: nat)

  /** The `Result<(), Box<dyn Error>>` of `ntt` and `intt`. */
  datatype Outcome = Ok | Err(message: string)

  /** What the context's `mod_pow` returns: 1 for the exponent 0 (whatever
      the modulus), otherwise `base^exp mod m`. */
  function ContextPow(base: nat, exp: nat, m: nat): (r: nat)
    requires m >= 1
    ensures exp > 0 ==> r < m
    ensures r == 1 || r < m
  {
    if exp == 0 then 1 else Residue(Pow(base, exp), m)
  }

  /** The context's `mod_pow` agrees with the library's `mod_pow` whenever
      the latter does not short-cut to 0, and both are powers modulo `m`. */
  lemma ContextPowAgrees(base: nat, exp: nat, m: nat)
    requires 2 <= m && exp > 0
    ensures ContextPow(base, exp, m) == Pow(base, exp) % m
    ensures base % m != 0 ==> ContextPow(base, exp, m) == ExpMod(base, exp, m)
  {
    ResidueMod(Pow(base, exp), m);
    ExpModValue(base, exp, m);
  }

  /** `FHEContext::mod_pow`: square-and-multiply. A modulus of 0 divides by
      zero. The products `result * base` and `base * base` fit a `u64` when
      the modulus is at most 2^32, or when the base is 0 or 1 modulo it (the
      base then stays 0 or 1); above 2^32 other bases can overflow. */
  method ModPowContext(ctx: FheContext, base0: nat, exp0: nat) returns (r: nat)
    requires 1 <= ctx.modulus < U64 && base0 < U64 && exp0 < U64
    requires ctx.modulus <= U32 || base0 % ctx.modulus <= 1
    ensures r == ContextPow(base0, exp0, ctx.modulus)
  {
    var m := ctx.modulus;
    var result: nat := 1;
    var base: nat := base0 % m;
    var exp: nat := exp0;
    PowModBase(base0, exp0, m);
    ModOfMod(1, m);
    while exp > 0
      invariant base < m && (result == 1 || result < m) && (m <= U32 || base <= 1)
      invariant (result * Pow(base, exp)) % m == Pow(base0, exp0) % m
      invariant exp0 == 0 || exp > 0 || result < m
      invariant exp0 == 0 ==> exp == 0 && result == 1
    {
      PowLoopStep(result, base, exp, m);
      if exp % 2 == 1 {
        ProductFits(result, base, m);
        result := result * base % m;
      }
      ProductFits(base, base, m);
      SquareStaysSmall(base, m);
      base := base * base % m;
      exp := exp / 2;
    }
    if exp0 > 0 {
      assert Pow(base, 0) == 1;
      DivModUnique(result, m, 0, result);
      ResidueMod(Pow(base0, exp0), m);
    }
    r := result;
  }

  /** A product of two values that are each below a modulus of at most
      2^32, or 1, fits a `u64`. */
  lemma SmallProduct(x: nat, y: nat, m: nat)
    requires 1 <= m <= U32 && (x < m || x == 1) && (y < m || y == 1)
    ensures x * y < U64
  {
    MulMono(x, U32 - 1, y, U32 - 1);
    assert (U32 - 1) * (U32 - 1) < U64;
  }

  /** The products of the context's `mod_pow` fit a `u64`: both factors are
      below a modulus of at most 2^32 (or 1), or one of them is 0 or 1. */
  lemma ProductFits(x: nat, y: nat, m: nat)
    requires 1 <= m < U64 && (x < m || x == 1) && y < m && (m <= U32 || y <= 1)
    ensures x * y < U64 && (y <= 1 ==> x * y <= x)
  {
    if m <= U32 {
      SmallProduct(x, y, m);
    }
  }

  /** A base of 0 or 1 stays 0 or 1 when squared modulo `m`. */
  lemma SquareStaysSmall(b: nat, m: nat)
    requires m >= 1
    ensures b <= 1 ==> (b * b) % m <= 1
  {
    if b <= 1 {
      assert b * b == b;
    }
  }

  /** `FHEContext::mod_inv`: `a^(m - 2)` by `mod_pow`; a modulus below 2
      underflows `modulus - 2`. */
  method ModInvContext(ctx: FheContext, a: nat) returns (r: nat)
    requires 2 <= ctx.modulus < U64 && a < U64
    requires ctx.modulus <= U32 || a % ctx.modulus <= 1
    ensures r == ContextPow(a, ctx.modulus - 2, ctx.modulus)
  {
    r := ModPowContext(ctx, a, ctx.modulus - 2);
  }

  /** For a prime modulus, `mod_inv` inverts every `a` it does not divide. */
  lemma ContextInverse(a: nat, p: nat)
    requires IsPrime(p) && a % p != 0
    ensures (a * ContextPow(a, p - 2, p)) % p == 1
  {
    if p == 2 {
      assert ContextPow(a, 0, 2) == 1;
    } else {
      ContextPowAgrees(a, p - 2, p);
      FermatInverseCorrect(a, p);
    }
  }

  // ---------------------------------------------------------------------
  // The transform as a function of the slice

  /** The slice a transform of length `|s|` may start from without a panic:
      a power-of-two length below 2^63 (so that `len <<= 1` cannot wrap to 0),
      a modulus from 1 to 2^32, and even-position entries to which the
      modulus can be added (only the stage of length 2 adds it to an entry
      that is not yet reduced, and only to the first of its pair). Slices
      shorter than 2 are never touched. */
  predicate Transformable(s: seq<nat>, m: nat)
  {
    (forall x :: 0 <= x < |s| ==> s[x] < U64) &&
    (|s| < 2 || (IsPow2(|s|) && |s| < I64 && 1 <= m <= U32 &&
                 forall x :: 0 <= x < |s| && x % 2 == 0 ==> s[x] + m < U64))
  }

  /** Entry `o` of a block `t` after its butterflies: the butterfly on
      column `j < |t|/2` maps `u = t[j]`, `x = t[j + |t|/2]` to
      `u + x * wlen^j` and `u - x * wlen^j`, reduced modulo `m`. */
  function Block2At(t: seq<nat>, wlen: nat, m: nat, o: nat): (r: nat)
    requires |t| >= 2 && |t| % 2 == 0 && o < |t| && m >= 1
    ensures r < m
  {
    var h := |t| / 2;
    if o < h then Residue(t[o] + t[o + h] * Pow(wlen, o), m)
    else Residue(t[o - h] - t[o] * Pow(wlen, o - h), m)
  }

  function Block2Entry(t: seq<nat>, wlen: nat, m: nat): nat -> nat
    requires |t| >= 2 && |t| % 2 == 0 && m >= 1
  {
    (o: nat) => if o < |t| then Block2At(t, wlen, m, o) else 0
  }

  /** A block of length `len` after the butterflies of its stage. */
  function Block2(t: seq<nat>, wlen: nat, m: nat): (r: seq<nat>)
    requires |t| >= 2 && |t| % 2 == 0 && m >= 1
    ensures |r| == |t| && forall o :: 0 <= o < |r| ==> r[o] < m
  {
    var f := Block2Entry(t, wlen, m);
    var r := Tabulate(f, 0, |t|);
    assert forall o :: 0 <= o < |r| ==> r[o] < m by {
      forall o | 0 <= o < |r| ensures r[o] < m {
        TabulateAt(f, 0, |t|, o);
      }
    }
    r
  }

  lemma Block2Of(t: seq<nat>, wlen: nat, m: nat, o: nat)
    requires |t| >= 2 && |t| % 2 == 0 && o < |t| && m >= 1
    ensures Block2(t, wlen, m)[o] == Block2At(t, wlen, m, o)
  {
    var f := Block2Entry(t, wlen, m);
    TabulateAt(f, 0, |t|, o);
  }

  /** The slice after the stage of length `len`: every block of `len`
      entries gets its butterflies (a shorter tail, which a power-of-two
      length never leaves, stays as it is). */
  function Stage2(s: seq<nat>, len: nat, wlen: nat, m: nat): (r: seq<nat>)
    requires len >= 2 && len % 2 == 0 && m >= 1
    ensures |r| == |s|
    decreases |s|
  {
    if |s| < len then s else Block2(s[..len], wlen, m) + Stage2(s[len..], len, wlen, m)
  }

  lemma {:induction false} Stage2Snoc(p: seq<nat>, blk: seq<nat>, len: nat, wlen: nat, m: nat)
    requires len >= 2 && len % 2 == 0 && m >= 1 && |p| % len == 0 && |blk| == len
    ensures Stage2(p + blk, len, wlen, m) == Stage2(p, len, wlen, m) + Block2(blk, wlen, m)
    decreases |p|
  {
    if |p| < len {
      DivModUnique(|p|, len, 0, |p|);
      assert p + blk == blk;
      assert blk[..len] == blk && blk[len..] == [];
    } else {
      var head, rest := p[..len], p[len..];
      ModShift(|p| - len, 1, len);
      Stage2Snoc(rest, blk, len, wlen, m);
      assert (p + blk)[..len] == head;
      assert (p + blk)[len..] == rest + blk;
      assert Stage2(p, len, wlen, m) == Block2(head, wlen, m) + Stage2(rest, len, wlen, m);
    }
  }

  /** The root of the stage of length `len`: `mod_pow(root, (m - 1) / len)`. */
  function StageRoot2(root: nat, len: nat, m: nat): (w: nat)
    requires m >= 1 && len > 0
    ensures w == 1 || w < m
  {
    ContextPow(root, Quot(m - 1, len), m)
  }

  /** The stages of length `len`, `2 * len`, ... that are at most `|s|`. */
  function Stages2(s: seq<nat>, len: nat, m: nat, root: nat): (r: seq<nat>)
    requires len >= 2 && len % 2 == 0 && m >= 1
    ensures |r| == |s|
    decreases if len <= |s| then |s| - len + 1 else 0, 2
  {
    if len > |s| then s else Stages2From(s, len, m, root)
  }

  function Stages2From(s: seq<nat>, len: nat, m: nat, root: nat): (r: seq<nat>)
    requires 2 <= len <= |s| && len % 2 == 0 && m >= 1
    ensures |r| == |s|
    decreases |s| - len + 1, 1
  {
    Stages2With(s, len, m, root, StageRoot2(root, len, m))
  }

  function Stages2With(s: seq<nat>, len: nat, m: nat, root: nat, wlen: nat): (r: seq<nat>)
    requires 2 <= len <= |s| && len % 2 == 0 && m >= 1
    ensures |r| == |s|
    decreases |s| - len + 1, 0
  {
    Stages2(Stage2(s, len, wlen, m), 2 * len, m, root)
  }

  /** What `ntt` leaves in a slice of the context's size. */
  function NttTransform(s: seq<nat>, m: nat, root: nat): (r: seq<nat>)
    requires |s| < 2 || m >= 1
    ensures |r| == |s|
  {
    if |s| < 2 then s else Stages2(s, 2, m, root)
  }

  /** The slice with all entries but the first in reverse order:
      `data[1..].reverse()`. */
  function RevTail(s: seq<nat>): (r: seq<nat>)
    requires |s| >= 1
    ensures |r| == |s| && r[0] == s[0]
    ensures forall x :: 1 <= x < |s| ==> r[x] == s[|s| - x]
  {
    [s[0]] + seq(|s| - 1, x requires 0 <= x < |s| - 1 => s[|s| - 1 - x])
  }

  /** Every entry times `c`, reduced modulo `m`. */
  function Scale(s: seq<nat>, c: nat, m: nat): (r: seq<nat>)
    requires m >= 1
    ensures |r| == |s|
  {
    seq(|s|, x requires 0 <= x < |s| => Residue(s[x] * c, m))
  }

  /** What `intt` leaves in a slice of the context's size. */
  function InttTransform(s: seq<nat>, m: nat, root: nat): (r: seq<nat>)
    requires |s| >= 1 && m >= 2
    ensures |r| == |s|
  {
    Scale(RevTail(NttTransform(s, m, root)), ContextPow(|s|, m - 2, m), m)
  }

  // ---------------------------------------------------------------------
  // Properties of the transform

  /** Every entry of a transformed slice of length at least 2 is reduced. */
  lemma NttReduced(s: seq<nat>, m: nat, root: nat, x: nat)
    requires IsPow2(|s|) && |s| >= 2 && m >= 1 && x < |s|
    ensures NttTransform(s, m, root)[x] < m
  {
    StagesReduced(s, 2, m, root, x);
  }

  lemma {:induction false} StagesReduced(s: seq<nat>, len: nat, m: nat, root: nat, x: nat)
    requires IsPow2(|s|) && IsPow2(len) && 2 <= len <= |s| && m >= 1 && x < |s|
    ensures len % 2 == 0 && Stages2(s, len, m, root)[x] < m
    decreases |s| - len
  {
    Pow2Even(len);
    var w := StageRoot2(root, len, m);
    var next := Stage2(s, len, w, m);
    Pow2Divides(len, |s|);
    StageReduced(s, len, w, m, x);
    assert Stages2(s, len, m, root) == Stages2From(s, len, m, root) == Stages2With(s, len, m, root, w);
    Pow2Double(len);
    if 2 * len <= |s| {
      StagesReduced(next, 2 * len, m, root, x);
    } else {
      assert Stages2(next, 2 * len, m, root) == next;
    }
  }

  lemma {:induction false} StageReduced(s: seq<nat>, len: nat, wlen: nat, m: nat, x: nat)
    requires len >= 2 && len % 2 == 0 && m >= 1 && |s| % len == 0 && x < |s|
    ensures Stage2(s, len, wlen, m)[x] < m
    decreases |s|
  {
    if |s| < len {
      DivModUnique(|s|, len, 0, |s|);
    } else if x >= len {
      ModShift(|s| - len, 1, len);
      StageReduced(s[len..], len, wlen, m, x - len);
    }
  }

  lemma Pow2Even(n: nat)
    requires IsPow2(n) && n >= 2
    ensures n % 2 == 0
  {
  }

  lemma Pow2Double(n: nat)
    requires IsPow2(n)
    ensures IsPow2(2 * n)
  {
    assert (2 * n) / 2 == n;
  }

  /** Reversing the tail twice gives the slice back. */
  lemma RevTailInvolution(s: seq<nat>)
    requires |s| >= 1
    ensures RevTail(RevTail(s)) == s
  {
  }

  /** Reversing the tail only reorders the entries. */
  lemma RevTailPermutes(s: seq<nat>)
    requires |s| >= 1
    ensures multiset(RevTail(s)) == multiset(s)
  {
    var tail := RevTail(s)[1..];
    assert RevTail(s) == [s[0]] + tail && s == [s[0]] + s[1..];
    ReversePermutes(s[1..], tail);
  }

  lemma {:induction false} ReversePermutes(a: seq<nat>, b: seq<nat>)
    requires |a| == |b| && forall x :: 0 <= x < |a| ==> b[x] == a[|a| - 1 - x]
    ensures multiset(b) == multiset(a)
    decreases |a|
  {
    if |a| >= 1 {
      var n := |a|;
      ReversePermutes(a[..n - 1], b[1..]);
      assert a == a[..n - 1] + [a[n - 1]];
      assert b == [b[0]] + b[1..];
    }
  }

  /** For two entries and an odd prime modulus the inverse undoes the
      transform: `intt(ntt([a, b])) == [a mod m, b mod m]`. */
  lemma RoundTripTwo(s: seq<nat>, m: nat, root: nat)
    requires |s| == 2 && IsPrime(m) && m != 2
    ensures InttTransform(NttTransform(s, m, root), m, root) == [s[0] % m, s[1] % m]
  {
    var a: int, b: int := s[0], s[1];
    var y := NttTransform(s, m, root);
    StagesTwo(s, m, root);
    StagesTwo(y, m, root);
    var z := NttTransform(y, m, root);
    var y0: int, y1: int := y[0], y[1];
    ResidueMod(a + b, m);
    ResidueMod(a - b, m);
    ResidueMod(y0 + y1, m);
    ResidueMod(y0 - y1, m);
    SumDifference(a, b, y0, y1, m);
    ModOfMod(y0 + y1, m);
    ModOfMod(y0 - y1, m);
    assert z[0] % m == (2 * a) % m && z[1] % m == (2 * b) % m;
    var inv := ContextPow(2, m - 2, m);
    assert 2 % m != 0 by {
      DivModUnique(2, m, 0, 2);
    }
    ContextInverse(2, m);
    HalveDouble(a, z[0], inv, m);
    HalveDouble(b, z[1], inv, m);
  }

  /** The transform of `[a + b, a - b]` is `[2a, 2b]` modulo `m`. */
  lemma SumDifference(a: int, b: int, y0: int, y1: int, m: int)
    requires m >= 1 && y0 == (a + b) % m && y1 == (a - b) % m
    ensures (y0 + y1) % m == (2 * a) % m && (y0 - y1) % m == (2 * b) % m
  {
    ModOfMod(a + b, m);
    ModOfMod(a - b, m);
    CongAdd(y0, a + b, y1, a - b, m);
    CongSub(y0, a + b, y1, a - b, m);
  }

  /** With `inv` an inverse of 2, `inv * z` is `a` when `z` is `2a`. */
  lemma HalveDouble(a: nat, z: nat, inv: nat, m: nat)
    requires m >= 2 && z % m == (2 * a) % m && (2 * inv) % m == 1
    ensures Residue(z * inv, m) == a % m
  {
    ResidueMod(z * inv, m);
    CongMul(z, 2 * a, inv, inv, m);
    Regroup(a, inv);
    DivModUnique(1, m, 0, 1);
    CongMul(a, a, 2 * inv, 1, m);
  }

  lemma Regroup(a: int, inv: int)
    ensures 2 * a * inv == a * (2 * inv) && a * 1 == a
  {
  }

  /** The transform of two entries `[a, b]` is `[a + b, a - b]` mod `m`. */
  lemma StagesTwo(s: seq<nat>, m: nat, root: nat)
    requires |s| == 2 && m >= 1
    ensures NttTransform(s, m, root) == [Residue(s[0] + s[1], m), Residue(s[0] as int - s[1] as int, m)]
  {
    var w := StageRoot2(root, 2, m);
    var blk := Block2(s, w, m);
    Block2Of(s, w, m, 0);
    Block2Of(s, w, m, 1);
    assert Pow(w, 0) == 1;
    assert s[..2] == s && s[2..] == [];
    assert Stage2(s, 2, w, m) == blk;
    assert NttTransform(s, m, root) == Stages2(s, 2, m, root) == Stages2From(s, 2, m, root);
    assert Stages2From(s, 2, m, root) == Stages2With(s, 2, m, root, w);
    assert Stages2With(s, 2, m, root, w) == Stages2(blk, 4, m, root) == blk;
  }

  /** The four-point butterfly network in exact arithmetic: pairs `(x0, x1)`
      and `(x2, x3)`, then the stage of length 4 with the twiddles 1 and `w`. */
  function Exact4(x0: int, x1: int, x2: int, x3: int, w: int): (r: seq<int>)
    ensures |r| == 4
  {
    [x0 + x1 + (x2 + x3), x0 - x1 + (x2 - x3) * w, x0 + x1 - (x2 + x3), x0 - x1 - (x2 - x3) * w]
  }

  /** The transform of four entries is the exact four-point network with the
      root `w` of the stage of length 4, reduced modulo `m`. */
  lemma NttFour(s: seq<nat>, m: nat, root: nat)
    requires |s| == 4 && m >= 1
    ensures var e := Exact4(s[0], s[1], s[2], s[3], StageRoot2(root, 4, m));
      NttTransform(s, m, root) == [e[0] % m, e[1] % m, e[2] % m, e[3] % m]
  {
    NttFourStages(s, m, root);
    FourNetwork(s, StageRoot2(root, 2, m), StageRoot2(root, 4, m), m);
  }

  /** The stages of lengths 2 and 4 on four entries compute the exact
      network modulo `m`. */
  lemma FourNetwork(s: seq<nat>, w2: nat, w: nat, m: nat)
    requires |s| == 4 && m >= 1
    ensures var e := Exact4(s[0], s[1], s[2], s[3], w);
      Stage2(Stage2(s, 2, w2, m), 4, w, m) == [e[0] % m, e[1] % m, e[2] % m, e[3] % m]
  {
    var x0: int, x1: int, x2: int, x3: int := s[0], s[1], s[2], s[3];
    var a0, a1, a2, a3 := Residue(x0 + x1, m), Residue(x0 - x1, m), Residue(x2 + x3, m), Residue(x2 - x3, m);
    var st1 := Stage2(s, 2, w2, m);
    StageTwoOfFour(s, w2, m);
    StageFourOfFour(st1, a0, a1, a2, a3, w, m);
    NetworkResidues(x0, x1, x2, x3, a0, a1, a2, a3, w, m);
  }

  /** The second stage's outputs are the network's residues. */
  lemma NetworkResidues(x0: int, x1: int, x2: int, x3: int, a0: int, a1: int, a2: int, a3: int, w: int, m: nat)
    requires m >= 1
    requires a0 == Residue(x0 + x1, m) && a1 == Residue(x0 - x1, m)
    requires a2 == Residue(x2 + x3, m) && a3 == Residue(x2 - x3, m)
    ensures var e := Exact4(x0, x1, x2, x3, w);
      [Residue(a0 + a2, m), Residue(a1 + a3 * w, m), Residue(a0 - a2, m), Residue(a1 - a3 * w, m)] ==
      [e[0] % m, e[1] % m, e[2] % m, e[3] % m]
  {
    NetworkCong(x0, x1, x2, x3, a0, a1, a2, a3, w, m);
    ResidueMod(a0 + a2, m);
    ResidueMod(a1 + a3 * w, m);
    ResidueMod(a0 - a2, m);
    ResidueMod(a1 - a3 * w, m);
  }

  /** Four entries go through exactly the stages of lengths 2 and 4. */
  lemma NttFourStages(s: seq<nat>, m: nat, root: nat)
    requires |s| == 4 && m >= 1
    ensures NttTransform(s, m, root) ==
      Stage2(Stage2(s, 2, StageRoot2(root, 2, m), m), 4, StageRoot2(root, 4, m), m)
  {
    var w2, w := StageRoot2(root, 2, m), StageRoot2(root, 4, m);
    var st1 := Stage2(s, 2, w2, m);
    var st2 := Stage2(st1, 4, w, m);
    assert NttTransform(s, m, root) == Stages2(s, 2, m, root) == Stages2From(s, 2, m, root);
    assert Stages2From(s, 2, m, root) == Stages2With(s, 2, m, root, w2) == Stages2(st1, 4, m, root);
    assert Stages2(st1, 4, m, root) == Stages2From(st1, 4, m, root) == Stages2With(st1, 4, m, root, w);
    assert Stages2With(st1, 4, m, root, w) == Stages2(st2, 8, m, root) == st2;
  }

  /** The stage of length 2 on four entries. */
  lemma StageTwoOfFour(s: seq<nat>, w2: nat, m: nat)
    requires |s| == 4 && m >= 1
    ensures Stage2(s, 2, w2, m) == [Residue(s[0] + s[1], m), Residue(s[0] as int - s[1], m),
                                    Residue(s[2] + s[3], m), Residue(s[2] as int - s[3], m)]
  {
    var p, q := s[..2], s[2..];
    assert Pow(w2, 0) == 1;
    Block2Of(p, w2, m, 0);
    Block2Of(p, w2, m, 1);
    Block2Of(q, w2, m, 0);
    Block2Of(q, w2, m, 1);
    assert q[..2] == q && q[2..] == [];
    assert Stage2(q, 2, w2, m) == Block2(q, w2, m);
  }

  /** The stage of length 4 on four entries. */
  lemma StageFourOfFour(t: seq<nat>, a0: int, a1: int, a2: int, a3: int, w: nat, m: nat)
    requires t == [a0, a1, a2, a3] && m >= 1
    ensures Stage2(t, 4, w, m) == [Residue(a0 + a2, m), Residue(a1 + a3 * w, m),
                                   Residue(a0 - a2, m), Residue(a1 - a3 * w, m)]
  {
    assert Pow(w, 0) == 1 && Pow(w, 1) == w;
    Block2Of(t, w, m, 0);
    Block2Of(t, w, m, 1);
    Block2Of(t, w, m, 2);
    Block2Of(t, w, m, 3);
    assert t[..4] == t && t[4..] == [];
  }

  /** Reducing the pairs' outputs before the second stage does not change
      the residues of the network. */
  lemma NetworkCong(x0: int, x1: int, x2: int, x3: int, a0: int, a1: int, a2: int, a3: int, w: int, m: nat)
    requires m >= 1
    requires a0 == Residue(x0 + x1, m) && a1 == Residue(x0 - x1, m)
    requires a2 == Residue(x2 + x3, m) && a3 == Residue(x2 - x3, m)
    ensures var e := Exact4(x0, x1, x2, x3, w);
      (a0 + a2) % m == e[0] % m && (a1 + a3 * w) % m == e[1] % m &&
      (a0 - a2) % m == e[2] % m && (a1 - a3 * w) % m == e[3] % m
  {
    ResidueMod(x0 + x1, m);
    ResidueMod(x0 - x1, m);
    ResidueMod(x2 + x3, m);
    ResidueMod(x2 - x3, m);
    ModOfMod(x0 + x1, m);
    ModOfMod(x0 - x1, m);
    ModOfMod(x2 + x3, m);
    ModOfMod(x2 - x3, m);
    CongAdd(a0, x0 + x1, a2, x2 + x3, m);
    CongSub(a0, x0 + x1, a2, x2 + x3, m);
    CongMul(a3, x2 - x3, w, w, m);
    CongAdd(a1, x0 - x1, a3 * w, (x2 - x3) * w, m);
    CongSub(a1, x0 - x1, a3 * w, (x2 - x3) * w, m);
  }

  /** The transform with the bit-reversal permutation in front, which makes
      the stages compute the transform in natural order. */
  function NttCorrected(s: seq<nat>, m: nat, root: nat): (r: seq<nat>)
    requires IsPow2(|s|) && (|s| < 2 || m >= 1)
    ensures |r| == |s|
  {
    NttTransform(BitReversed(s), m, root)
  }

  /** The inverse built on the corrected transform. */
  function InttCorrected(s: seq<nat>, m: nat, root: nat): (r: seq<nat>)
    requires IsPow2(|s|) && m >= 2
    ensures |r| == |s|
  {
    Scale(RevTail(NttCorrected(s, m, root)), ContextPow(|s|, m - 2, m), m)
  }

  /** The bit-reversal permutation of four entries exchanges the middle two. */
  lemma BitReversedFour(s: seq<nat>)
    requires |s| == 4
    ensures IsPow2(|s|) && BitReversed(s) == [s[0], s[2], s[1], s[3]]
  {
    BitRevFour();
    BitReversedAt(s, 0);
    BitReversedAt(s, 1);
    BitReversedAt(s, 2);
    BitReversedAt(s, 3);
  }

  /** The reversals of the two-bit indices. */
  lemma BitRevFour()
    ensures IsPow2(4) && TrailingZeros(4) == 2
    ensures BitRev(0, 2) == 0 && BitRev(1, 2) == 2 && BitRev(2, 2) == 1 && BitRev(3, 2) == 3
  {
    assert IsPow2(4) by {
      assert IsPow2(2);
    }
    assert TrailingZeros(4) == 2;
  }

  /** The corrected transform of four entries is the network run on the
      bit-reversed inputs, reduced modulo `m`. */
  lemma CorrectedFour(s: seq<nat>, m: nat, root: nat)
    requires |s| == 4 && m >= 1
    ensures var e := Exact4(s[0], s[2], s[1], s[3], StageRoot2(root, 4, m));
      IsPow2(|s|) && NttCorrected(s, m, root) == [e[0] % m, e[1] % m, e[2] % m, e[3] % m]
  {
    BitReversedFour(s);
    NttFour([s[0], s[2], s[1], s[3]], m, root);
  }

  /** Applying the corrected transform twice to four entries gives four
      times the inputs, in the order `0, 3, 2, 1`, when the root of the
      stage of length 4 squares to -1. */
  lemma TwiceCorrectedFour(s: seq<nat>, m: nat, root: nat)
    requires |s| == 4 && m >= 1
    requires (StageRoot2(root, 4, m) * StageRoot2(root, 4, m)) % m == m - 1
    ensures IsPow2(|s|)
    ensures var z := NttCorrected(NttCorrected(s, m, root), m, root);
      |z| == 4 && z[0] % m == (4 * s[0]) % m && z[3] % m == (4 * s[1]) % m &&
      z[2] % m == (4 * s[2]) % m && z[1] % m == (4 * s[3]) % m
  {
    var w := StageRoot2(root, 4, m);
    CorrectedFour(s, m, root);
    var y := NttCorrected(s, m, root);
    CorrectedFour(y, m, root);
    var e := Exact4(s[0], s[2], s[1], s[3], w);
    var f := Exact4(y[0], y[2], y[1], y[3], w);
    ModOfMod(e[0], m);
    ModOfMod(e[1], m);
    ModOfMod(e[2], m);
    ModOfMod(e[3], m);
    Exact4Cong(y[0], y[2], y[1], y[3], e[0], e[2], e[1], e[3], w, m);
    InverseNetwork(s[0], s[1], s[2], s[3], w, m);
    ModOfMod(f[0], m);
    ModOfMod(f[1], m);
    ModOfMod(f[2], m);
    ModOfMod(f[3], m);
  }

  /** With the bit-reversal permutation in front, the inverse undoes the
      transform of four entries for an odd prime modulus whenever the root
      of the stage of length 4 squares to -1 (a primitive fourth root of
      unity). */
  lemma RoundTripFourCorrected(s: seq<nat>, m: nat, root: nat)
    requires |s| == 4 && IsPrime(m) && m != 2
    requires (StageRoot2(root, 4, m) * StageRoot2(root, 4, m)) % m == m - 1
    ensures IsPow2(|s|) && InttCorrected(NttCorrected(s, m, root), m, root) == [s[0] % m, s[1] % m, s[2] % m, s[3] % m]
  {
    QuarterInverse(m);
    RoundTripFourInvertible(s, m, root);
  }

  /** The round trip of four entries needs only that 4 has the inverse the
      inverse transform computes. */
  lemma RoundTripFourInvertible(s: seq<nat>, m: nat, root: nat)
    requires |s| == 4 && m >= 2 && (4 * ContextPow(4, m - 2, m)) % m == 1
    requires (StageRoot2(root, 4, m) * StageRoot2(root, 4, m)) % m == m - 1
    ensures IsPow2(|s|) && InttCorrected(NttCorrected(s, m, root), m, root) == [s[0] % m, s[1] % m, s[2] % m, s[3] % m]
  {
    TwiceCorrectedFour(s, m, root);
    var y := NttCorrected(s, m, root);
    var z := NttCorrected(y, m, root);
    var inv := ContextPow(4, m - 2, m);
    InttCorrectedFour(y, m, root);
    QuarterAll(s, z, inv, m);
  }

  /** The corrected inverse of four entries scales by the inverse of 4. */
  lemma InttCorrectedFour(y: seq<nat>, m: nat, root: nat)
    requires |y| == 4 && m >= 2
    ensures IsPow2(|y|)
    ensures InttCorrected(y, m, root) == Scale(RevTail(NttCorrected(y, m, root)), ContextPow(4, m - 2, m), m)
  {
    BitRevFour();
  }

  /** Reversing the tail of `z` and multiplying by the inverse of 4 gives `s`
      back when `z` holds four times `s` in the order `0, 3, 2, 1`. */
  lemma QuarterAll(s: seq<nat>, z: seq<nat>, inv: nat, m: nat)
    requires |s| == 4 && |z| == 4 && m >= 2 && (4 * inv) % m == 1
    requires z[0] % m == (4 * s[0]) % m && z[3] % m == (4 * s[1]) % m
    requires z[2] % m == (4 * s[2]) % m && z[1] % m == (4 * s[3]) % m
    ensures Scale(RevTail(z), inv, m) == [s[0] % m, s[1] % m, s[2] % m, s[3] % m]
  {
    ScaleRevTailFour(z, inv, m);
    QuarterQuad(s[0], z[0], inv, m);
    QuarterQuad(s[1], z[3], inv, m);
    QuarterQuad(s[2], z[2], inv, m);
    QuarterQuad(s[3], z[1], inv, m);
  }

  /** The inverse's last two steps on four entries. */
  lemma ScaleRevTailFour(z: seq<nat>, c: nat, m: nat)
    requires |z| == 4 && m >= 1
    ensures Scale(RevTail(z), c, m) ==
      [Residue(z[0] * c, m), Residue(z[3] * c, m), Residue(z[2] * c, m), Residue(z[1] * c, m)]
  {
    assert RevTail(z) == [z[0], z[3], z[2], z[1]];
  }

  /** The network depends on its inputs only through their residues. */
  lemma Exact4Cong(x0: int, x1: int, x2: int, x3: int, y0: int, y1: int, y2: int, y3: int, w: int, m: nat)
    requires m >= 1 && x0 % m == y0 % m && x1 % m == y1 % m && x2 % m == y2 % m && x3 % m == y3 % m
    ensures var f, g := Exact4(x0, x1, x2, x3, w), Exact4(y0, y1, y2, y3, w);
      f[0] % m == g[0] % m && f[1] % m == g[1] % m && f[2] % m == g[2] % m && f[3] % m == g[3] % m
  {
    CongAdd(x0, y0, x1, y1, m);
    CongSub(x0, y0, x1, y1, m);
    CongAdd(x2, y2, x3, y3, m);
    CongSub(x2, y2, x3, y3, m);
    CongMul(x2 - x3, y2 - y3, w, w, m);
    CongAdd(x0 + x1, y0 + y1, x2 + x3, y2 + y3, m);
    CongSub(x0 + x1, y0 + y1, x2 + x3, y2 + y3, m);
    CongAdd(x0 - x1, y0 - y1, (x2 - x3) * w, (y2 - y3) * w, m);
    CongSub(x0 - x1, y0 - y1, (x2 - x3) * w, (y2 - y3) * w, m);
  }

  /** Running the network on the bit-reversed outputs of the network gives
      four times the inputs, in the order `0, 3, 2, 1`, when `w^2 == -1`. */
  lemma InverseNetwork(s0: int, s1: int, s2: int, s3: int, w: int, m: nat)
    requires m >= 1 && (w * w) % m == m - 1
    ensures var e := Exact4(s0, s2, s1, s3, w);
      var g := Exact4(e[0], e[2], e[1], e[3], w);
      g[0] % m == (4 * s0) % m && g[1] % m == (4 * s3) % m && g[2] % m == (4 * s2) % m && g[3] % m == (4 * s1) % m
  {
    var e := Exact4(s0, s2, s1, s3, w);
    var g := Exact4(e[0], e[2], e[1], e[3], w);
    var c := 2 * (s1 - s3);
    assert e[1] - e[3] == c * w;
    Regroup4(c, w);
    assert g[1] == 2 * (s1 + s3) + c * (w * w);
    assert g[3] == 2 * (s1 + s3) - c * (w * w);
    MinusOne(c, w * w, m);
    CongAdd(2 * (s1 + s3), 2 * (s1 + s3), c * (w * w), -c, m);
    CongSub(2 * (s1 + s3), 2 * (s1 + s3), c * (w * w), -c, m);
  }

  lemma Regroup4(c: int, w: int)
    ensures c * w * w == c * (w * w)
  {
  }

  /** Multiplying by a residue of -1 negates. */
  lemma MinusOne(c: int, v: int, m: nat)
    requires m >= 1 && v % m == m - 1
    ensures (c * v) % m == (-c) % m
  {
    DivModUnique(-1, m, -1, m - 1);
    CongMul(c, c, v, -1, m);
  }

  /** 4 is invertible modulo an odd prime. */
  lemma FourInvertible(m: nat)
    requires IsPrime(m) && m != 2
    ensures 4 % m != 0
  {
    if m <= 4 {
      assert !Divides(2, m);
      assert m == 3;
      DivModUnique(4, 3, 1, 1);
    } else {
      DivModUnique(4, m, 0, 4);
    }
  }

  /** The inverse of 4 modulo an odd prime, as the inverse computes it. */
  lemma QuarterInverse(m: nat)
    requires IsPrime(m) && m != 2
    ensures m >= 3 && (4 * ContextPow(4, m - 2, m)) % m == 1
  {
    FourInvertible(m);
    ContextInverse(4, m);
  }

  /** With `inv` an inverse of 4, `inv * z` is `a` when `z` is `4a`. */
  lemma QuarterQuad(a: nat, z: nat, inv: nat, m: nat)
    requires m >= 2 && z % m == (4 * a) % m && (4 * inv) % m == 1
    ensures Residue(z * inv, m) == a % m
  {
    ResidueMod(z * inv, m);
    CongMul(z, 4 * a, inv, inv, m);
    Regroup2(a, inv);
    DivModUnique(1, m, 0, 1);
    CongMul(a, a, 4 * inv, 1, m);
  }

  lemma Regroup2(a: int, inv: int)
    ensures 4 * a * inv == a * (4 * inv) && a * 1 == a
  {
  }

  /** The source as written: for the prime 5 and the root 2, whose stage
      root for length 4 is 2 with `2^2 == -1 (mod 5)`, `intt(ntt(x))` is not
      `x` for `x = [1, 2, 3, 4]`; the corrected transform does give `x` back. */
  lemma InttNttCounterexample()
    ensures NttTransform([1, 2, 3, 4], 5, 2) == [0, 2, 1, 1]
    ensures InttTransform(NttTransform([1, 2, 3, 4], 5, 2), 5, 2) == [1, 2, 0, 2]
    ensures InttCorrected(NttCorrected([1, 2, 3, 4], 5, 2), 5, 2) == [1, 2, 3, 4]
  {
    ExampleForward();
    ExampleInverse();
    ExampleCorrected();
  }

  /** The corrected round trip on the same input. */
  lemma ExampleCorrected()
    ensures InttCorrected(NttCorrected([1, 2, 3, 4], 5, 2), 5, 2) == [1, 2, 3, 4]
  {
    CorrectedAt([1, 2, 3, 4], 5, 2);
  }

  lemma CorrectedAt(s: seq<nat>, m: nat, root: nat)
    requires s == [1, 2, 3, 4] && m == 5 && root == 2
    ensures IsPow2(|s|) && InttCorrected(NttCorrected(s, m, root), m, root) == s
  {
    FivePrime();
    FiveRoots();
    RoundTripFourCorrected(s, m, root);
  }

  /** The transform of `[1, 2, 3, 4]` modulo 5 with the root 2, and the
      transform of that. */
  lemma ExampleForward()
    ensures NttTransform([1, 2, 3, 4], 5, 2) == [0, 2, 1, 1]
    ensures NttTransform([0, 2, 1, 1], 5, 2) == [4, 3, 0, 3]
  {
    ExampleFirst();
    ExampleSecond();
  }

  lemma ExampleFirst()
    ensures NttTransform([1, 2, 3, 4], 5, 2) == [0, 2, 1, 1]
  {
    assert 10 % 5 == 0 && -3 % 5 == 2 && -4 % 5 == 1 && 1 % 5 == 1;
    ExampleFour([1, 2, 3, 4], [10, -3, -4, 1], [0, 2, 1, 1]);
  }

  lemma ExampleSecond()
    ensures NttTransform([0, 2, 1, 1], 5, 2) == [4, 3, 0, 3]
  {
    assert 4 % 5 == 4 && -2 % 5 == 3 && 0 % 5 == 0;
    ExampleFour([0, 2, 1, 1], [4, -2, 0, -2], [4, 3, 0, 3]);
  }

  /** One four-entry transform modulo 5 with the root 2, whose stage root
      for length 4 is 2. */
  lemma ExampleFour(s: seq<nat>, e: seq<int>, r: seq<nat>)
    requires |s| == 4 && e == Exact4(s[0], s[1], s[2], s[3], 2)
    requires |r| == 4 && forall k :: 0 <= k < 4 ==> r[k] == e[k] % 5
    ensures NttTransform(s, 5, 2) == r
  {
    FiveRoots();
    NttFour(s, 5, 2);
  }

  /** The inverse as written on `[0, 2, 1, 1]`: the tail of `[4, 3, 0, 3]`
      reversed, times 4, the inverse of 4 modulo 5. */
  lemma ExampleInverse()
    ensures InttTransform([0, 2, 1, 1], 5, 2) == [1, 2, 0, 2]
  {
    ExampleForward();
    InverseAt([0, 2, 1, 1], [4, 3, 0, 3]);
  }

  lemma InverseAt(y: seq<nat>, z: seq<nat>)
    requires |y| == 4 && z == [4, 3, 0, 3] && NttTransform(y, 5, 2) == z
    ensures InttTransform(y, 5, 2) == [1, 2, 0, 2]
  {
    assert ContextPow(4, 3, 5) == 4 by {
      assert Pow(4, 3) == 64;
      ResidueMod(64, 5);
    }
    assert InttTransform(y, 5, 2) == Scale(RevTail(z), 4, 5);
    ScaleRevTailFour(z, 4, 5);
    ResidueMod(16, 5);
    ResidueMod(12, 5);
    ResidueMod(0, 5);
  }

  /** The source as written, on the modulus 17 with the root 9: 9 has
      order 8, not 16, so the stage roots `9^8` and `9^4` are 1 and 16, and
      `intt(ntt(x))` swaps the last two entries of `x = [1, 2, 3, 4]`. */
  lemma SeventeenCounterexample()
    ensures NttTransform([1, 2, 3, 4], 17, 9) == [10, 0, 13, 15]
    ensures InttTransform(NttTransform([1, 2, 3, 4], 17, 9), 17, 9) == [1, 2, 4, 3]
  {
    SeventeenForward();
    SeventeenTwice();
    SeventeenInverseAt([10, 0, 13, 15], [4, 12, 16, 8]);
  }

  /** The modulus of the crate's own round-trip test, `0xFFFFF001`, is not
      prime: 107 divides it. The inverse `mod_inv` computes by Fermat's
      little theorem is then not guaranteed, and neither is a root of the
      order the stages need. */
  lemma TestModulusComposite()
    ensures 0xFFFFF001 == 107 * 40139843 && !IsPrime(0xFFFFF001)
  {
    assert Divides(107, 0xFFFFF001) by { assert 0xFFFFF001 == 107 * 40139843; }
  }

  /** Only even-position entries need room for the modulus: `ntt` accepts
      `[0, 2^64 - 1]` modulo 5, whose odd entry is the largest word, and
      returns `[0, 0]`. */
  lemma OddWordAccepted()
    ensures Transformable([0, U64 - 1], 5)
    ensures NttTransform([0, U64 - 1], 5, 2) == [0, 0]
  {
    var s: seq<nat> := [0, U64 - 1];
    assert IsPow2(2) by { assert IsPow2(1); }
    StagesTwo(s, 5, 2);
    ResidueMod(U64 - 1, 5);
    ResidueMod(0 - (U64 - 1), 5);
  }

  /** The transform of `[1, 2, 3, 4]` modulo 17 with the root 9. */
  lemma SeventeenForward()
    ensures NttTransform([1, 2, 3, 4], 17, 9) == [10, 0, 13, 15]
  {
    assert -17 % 17 == 0 && -4 % 17 == 13;
    SeventeenFour([1, 2, 3, 4], [10, -17, -4, 15], [10, 0, 13, 15]);
  }

  /** The transform, as written, of `[10, 0, 13, 15]`: the forward
      transform applied a second time. */
  lemma SeventeenTwice()
    ensures NttTransform([10, 0, 13, 15], 17, 9) == [4, 12, 16, 8]
  {
    assert 38 % 17 == 4 && -22 % 17 == 12 && -18 % 17 == 16 && 42 % 17 == 8;
    SeventeenFour([10, 0, 13, 15], [38, -22, -18, 42], [4, 12, 16, 8]);
  }

  lemma SeventeenFour(s: seq<nat>, e: seq<int>, r: seq<nat>)
    requires |s| == 4 && e == Exact4(s[0], s[1], s[2], s[3], 16)
    requires |r| == 4 && forall k :: 0 <= k < 4 ==> r[k] == e[k] % 17
    ensures NttTransform(s, 17, 9) == r
  {
    SeventeenRoots();
    NttFour(s, 17, 9);
  }

  /** The inverse as written on `[10, 0, 13, 15]`: the tail of
      `[4, 12, 16, 8]` reversed, times 13, the inverse of 4 modulo 17. */
  lemma SeventeenInverseAt(y: seq<nat>, z: seq<nat>)
    requires |y| == 4 && z == [4, 12, 16, 8] && NttTransform(y, 17, 9) == z
    ensures InttTransform(y, 17, 9) == [1, 2, 4, 3]
  {
    assert ContextPow(4, 15, 17) == 13 by {
      assert Pow(4, 5) == 1024;
      PowAdd(4, 5, 5);
      PowAdd(4, 10, 5);
      ResidueMod(1073741824, 17);
    }
    assert InttTransform(y, 17, 9) == Scale(RevTail(z), 13, 17);
    ScaleRevTailFour(z, 13, 17);
    ResidueMod(52, 17);
    ResidueMod(104, 17);
    ResidueMod(208, 17);
    ResidueMod(156, 17);
  }

  /** The stage roots of 9 modulo 17: `9^8 == 1` for length 2 and
      `9^4 == 16` for length 4. */
  lemma SeventeenRoots()
    ensures StageRoot2(9, 2, 17) == 1 && StageRoot2(9, 4, 17) == 16
  {
    QuotDiv(16, 2);
    QuotDiv(16, 4);
    assert Pow(9, 8) == 43046721 && Pow(9, 4) == 6561;
    ResidueMod(43046721, 17);
    ResidueMod(6561, 17);
  }

  lemma FivePrime()
    ensures IsPrime(5)
  {
    forall d | 2 <= d < 5
      ensures !Divides(d, 5)
    {
    }
  }

  /** The stage roots of 2 modulo 5: 4 for length 2 and 2 for length 4. */
  lemma FiveRoots()
    ensures StageRoot2(2, 2, 5) == 4 && StageRoot2(2, 4, 5) == 2
  {
    QuotDiv(4, 2);
    QuotDiv(4, 4);
    assert Pow(2, 2) == 4 && Pow(2, 1) == 2;
    ResidueMod(4, 5);
    ResidueMod(2, 5);
  }

  // ---------------------------------------------------------------------
  // The methods

  /** `FHEContext::ntt`: a slice whose length is not the context's size is
      refused and left as it is; otherwise the stages of length 2, 4, ...
      run in place. */
  method Ntt(ctx: FheContext, data: array<nat>) returns (r: Outcome)
    requires ctx.root < U64 && (data.Length == ctx.size ==> Transformable(data[..], ctx.modulus))
    modifies data
    ensures data.Length != ctx.size ==> r.Err? && data[..] == old(data[..])
    ensures data.Length == ctx.size ==> r.Ok? && data[..] == NttTransform(old(data[..]), ctx.modulus, ctx.root)
  {
    var n := data.Length;
    if n != ctx.size {
      return Err("Data size doesn't match context");
    }
    RunStages2(ctx, data);
    return Ok;
  }

  /** Entries bounded as stage `len` needs them: the first stage reads raw
      words and adds the modulus to those at even positions, later ones see
      reduced entries. */
  predicate StageInput(s: seq<nat>, len: nat, m: nat)
  {
    forall x :: 0 <= x < |s| ==> if len == 2 then s[x] < U64 && (x % 2 == 0 ==> s[x] + m < U64) else s[x] < m
  }

  /** The stage loop of `ntt`: lengths 2, 4, 8, ... up to the slice length. */
  method RunStages2(ctx: FheContext, a: array<nat>)
    requires ctx.root < U64 && Transformable(a[..], ctx.modulus)
    modifies a
    ensures a[..] == NttTransform(old(a[..]), ctx.modulus, ctx.root)
  {
    var n := a.Length;
    var m := ctx.modulus;
    ghost var s0 := a[..];
    var len: nat := 2;
    while len <= n
      invariant IsPow2(len) && len >= 2 && len <= 2 * n + 2
      invariant n >= 2 ==> 1 <= m <= U32 && IsPow2(n) && n < I64 && StageInput(a[..], len, m)
      invariant n >= 2 ==> Stages2(a[..], len, m, ctx.root) == Stages2(s0, 2, m, ctx.root)
      invariant n < 2 ==> a[..] == s0
      decreases 2 * n + 2 - len
    {
      Pow2Divides(len, n);
      Pow2Even(len);
      ghost var cur := a[..];
      StageExponentDiv(m, len);
      var wlen := ModPowContext(ctx, ctx.root, (m - 1) / len);
      RunStage2(a, len, m, wlen);
      assert Stages2(cur, len, m, ctx.root) == Stages2With(cur, len, m, ctx.root, wlen);
      Pow2Double(len);
      len := len * 2;
    }
  }

  /** One stage of `ntt`: the blocks of length `len`, one after the other. */
  method RunStage2(a: array<nat>, len: nat, m: nat, wlen: nat)
    requires len >= 2 && len % 2 == 0 && a.Length % len == 0 && 1 <= m <= U32
    requires (wlen == 1 || wlen < m) && StageInput(a[..], len, m)
    modifies a
    ensures a[..] == Stage2(old(a[..]), len, wlen, m)
    ensures StageInput(a[..], 2 * len, m)
  {
    var n := a.Length;
    ghost var s := a[..];
    var i: nat := 0;
    while i < n
      invariant i <= n && i % len == 0 && i % 2 == 0
      invariant a[..i] == Stage2(s[..i], len, wlen, m) && a[i..] == s[i..]
      invariant forall x :: 0 <= x < i ==> a[x] < m
    {
      BlockFits(i, n, len);
      ghost var prev := a[..];
      SameSuffixBlock(prev, s, i, len);
      StageInputSlice(s, i, len, m);
      RunBlock2(a, i, len, m, wlen);
      Stage2Step(s, prev, a[..], i, len, wlen, m);
      ReducedPrefix(prev, a[..], i, len, wlen, m);
      EvenStep(i, len);
      i := i + len;
    }
    assert a[..] == a[..n] && s == s[..n];
  }

  lemma Stage2Step(s: seq<nat>, prev: seq<nat>, cur: seq<nat>, i: nat, len: nat, wlen: nat, m: nat)
    requires len >= 2 && len % 2 == 0 && m >= 1 && i % len == 0 && i + len <= |s|
    requires |prev| == |s| && prev[..i] == Stage2(s[..i], len, wlen, m) && prev[i..] == s[i..]
    requires |cur| == |prev| && cur[..i] == prev[..i] && cur[i + len..] == prev[i + len..]
    requires cur[i..i + len] == Block2(prev[i..i + len], wlen, m)
    ensures cur[..i + len] == Stage2(s[..i + len], len, wlen, m) && cur[i + len..] == s[i + len..]
  {
    assert prev[i..i + len] == s[i..i + len];
    Stage2Snoc(s[..i], s[i..i + len], len, wlen, m);
    assert s[..i] + s[i..i + len] == s[..i + len];
    assert cur[..i + len] == cur[..i] + cur[i..i + len];
  }

  lemma EvenStep(i: nat, len: nat)
    requires i % 2 == 0 && len % 2 == 0
    ensures (i + len) % 2 == 0
  {
  }

  /** Two sequences that agree from `i` on agree on the block at `i`. */
  lemma SameSuffixBlock(p: seq<nat>, s: seq<nat>, i: nat, len: nat)
    requires |p| == |s| && i + len <= |s| && p[i..] == s[i..]
    ensures p[i..i + len] == s[i..i + len]
  {
    assert p[i..i + len] == p[i..][..len];
    assert s[i..i + len] == s[i..][..len];
  }

  /** A block of a stage's input is an input of the block's butterflies. */
  lemma StageInputSlice(s: seq<nat>, i: nat, len: nat, m: nat)
    requires i + len <= |s| && i % 2 == 0 && StageInput(s, len, m)
    ensures StageInput(s[i..i + len], len, m)
  {
    var t := s[i..i + len];
    forall x | 0 <= x < |t|
      ensures t[x] == s[i + x]
    {
    }
  }

  /** The finished blocks, and the one just written, are reduced. */
  lemma ReducedPrefix(prev: seq<nat>, cur: seq<nat>, i: nat, len: nat, wlen: nat, m: nat)
    requires len >= 2 && len % 2 == 0 && m >= 1 && i + len <= |prev| == |cur|
    requires forall x :: 0 <= x < i ==> prev[x] < m
    requires cur[..i] == prev[..i] && cur[i..i + len] == Block2(prev[i..i + len], wlen, m)
    ensures forall x :: 0 <= x < i + len ==> cur[x] < m
  {
    forall x | 0 <= x < i + len
      ensures cur[x] < m
    {
      if x < i {
        assert cur[x] == cur[..i][x];
      } else {
        assert cur[x] == cur[i..i + len][x - i];
      }
    }
  }

  /** Entries of a block that the first `j` butterflies have written. */
  predicate Touched2(o: nat, j: nat, h: nat)
  {
    o < j || h <= o < h + j
  }

  predicate BlockPartly2(cur: seq<nat>, i: nat, t: seq<nat>, goal: seq<nat>, j: nat)
    requires |goal| == |t| && i + |t| <= |cur|
  {
    forall x :: i <= x < i + |t| ==>
      cur[x] == if Touched2(x - i, j, |t| / 2) then goal[x - i] else t[x - i]
  }

  /** The twiddle `w` of column `j`: 1, then `wlen^j mod m`. */
  function Twiddle(wlen: nat, j: nat, m: nat): (w: nat)
    requires m >= 1
    ensures w == 1 || w < m
  {
    if j == 0 then 1 else Residue(Pow(wlen, j), m)
  }

  /** The butterflies of the block at `i`: column `j` reads and writes the
      entries `i + j` and `i + j + len/2` with the twiddle `w`, which steps
      by `wlen`. */
  method RunBlock2(a: array<nat>, i: nat, len: nat, m: nat, wlen: nat)
    requires len >= 2 && len % 2 == 0 && i + len <= a.Length && 1 <= m <= U32
    requires (wlen == 1 || wlen < m) && StageInput(a[i..i + len], len, m)
    modifies a
    ensures a[..i] == old(a[..i]) && a[i + len..] == old(a[i + len..])
    ensures a[i..i + len] == Block2(old(a[i..i + len]), wlen, m)
  {
    ghost var s := a[..];
    ghost var t := a[i..i + len];
    ghost var goal := Block2(t, wlen, m);
    var h := len / 2;
    var w: nat := 1;
    var j: nat := 0;
    while j < h
      invariant j <= h && w == Twiddle(wlen, j, m)
      invariant Outside(a[..], s, i, len) && BlockPartly2(a[..], i, t, goal, j)
    {
      BlockColumn2(a, i, h, j, m, w, wlen, s, t, goal);
      SmallProduct(w, wlen, m);
      TwiddleStep(wlen, j, m, w);
      w := w * wlen % m;
      j := j + 1;
    }
    BlockEnd2(a[..], i, t, goal);
  }

  /** One pass of the inner loop of `ntt`: the butterfly on column `j` of
      the block at `i` extends its written part by that column. */
  method BlockColumn2(a: array<nat>, i: nat, h: nat, j: nat, m: nat, w: nat, wlen: nat,
                      ghost s: seq<nat>, ghost t: seq<nat>, ghost goal: seq<nat>)
    requires |t| == 2 * h && j < h && 1 <= m <= U32 && goal == Block2(t, wlen, m)
    requires StageInput(t, |t|, m) && w == Twiddle(wlen, j, m)
    requires Outside(a[..], s, i, |t|) && BlockPartly2(a[..], i, t, goal, j)
    modifies a
    ensures Outside(a[..], s, i, |t|) && BlockPartly2(a[..], i, t, goal, j + 1)
  {
    ghost var prev := a[..];
    assert a[i + j] == t[j] && a[i + j + h] == t[j + h] by {
      assert !Touched2(j, j, h) && !Touched2(j + h, j, h);
    }
    ButterflyBounds(t, |t|, m, j, w);
    Butterfly2(a, i + j, h, m, w);
    Column2Step(prev, a[..], s, i, t, wlen, m, goal, j, w);
  }

  lemma BlockEnd2(cur: seq<nat>, i: nat, t: seq<nat>, goal: seq<nat>)
    requires |t| % 2 == 0 && |goal| == |t| && i + |t| <= |cur| && BlockPartly2(cur, i, t, goal, |t| / 2)
    ensures cur[i..i + |t|] == goal
  {
    forall o | 0 <= o < |t|
      ensures cur[i..i + |t|][o] == goal[o]
    {
      assert cur[i..i + |t|][o] == cur[i + o];
      assert Touched2(o, |t| / 2, |t| / 2);
    }
  }

  /** The operands of butterfly `j` fit a `u64`. */
  lemma ButterflyBounds(t: seq<nat>, len: nat, m: nat, j: nat, w: nat)
    requires len >= 2 && len % 2 == 0 && |t| == len && j < len / 2 && 1 <= m <= U32
    requires StageInput(t, len, m) && (w == 1 || w < m) && (j == 0 ==> w == 1)
    ensures t[j] + m < U64 && t[j + len / 2] * w < U64
  {
    if len == 2 {
      assert w == 1;
    } else {
      SmallProduct(t[j + len / 2], w, m);
    }
  }

  /** The twiddle update `w * wlen % m` moves from column `j` to `j + 1`. */
  lemma TwiddleStep(wlen: nat, j: nat, m: nat, w: nat)
    requires m >= 1 && w == Twiddle(wlen, j, m)
    ensures (w * wlen) % m == Twiddle(wlen, j + 1, m)
  {
    ResidueMod(Pow(wlen, j + 1), m);
    if j > 0 {
      ResidueMod(Pow(wlen, j), m);
      MulModLeft(Pow(wlen, j), wlen, m);
    }
    assert Pow(wlen, j + 1) == wlen * Pow(wlen, j);
    assert Pow(wlen, j) * wlen == wlen * Pow(wlen, j);
  }

  /** Butterfly `j`, run with the twiddle `w` of its column, writes the
      block's outputs into its column. */
  lemma Column2Step(prev: seq<nat>, cur: seq<nat>, s: seq<nat>, i: nat, t: seq<nat>, wlen: nat, m: nat,
                    goal: seq<nat>, j: nat, w: nat)
    requires |t| >= 2 && |t| % 2 == 0 && j < |t| / 2 && m >= 1 && goal == Block2(t, wlen, m)
    requires w == Twiddle(wlen, j, m) && Outside(prev, s, i, |t|) && BlockPartly2(prev, i, t, goal, j)
    requires prev[i + j] == t[j] && prev[i + j + |t| / 2] == t[j + |t| / 2]
    requires i + |t| <= |prev| && cur == ButterflyApplied2(prev, i + j, |t| / 2, m, w)
    ensures Outside(cur, s, i, |t|) && BlockPartly2(cur, i, t, goal, j + 1)
  {
    var h := |t| / 2;
    Block2Of(t, wlen, m, j);
    Block2Of(t, wlen, m, j + h);
    TwiddleCong(t[j], t[j + h], wlen, j, m, w);
  }

  /** The reduced twiddle gives the same outputs as the power `wlen^j`. */
  lemma TwiddleCong(u: nat, x: nat, wlen: nat, j: nat, m: nat, w: nat)
    requires m >= 1 && w == Twiddle(wlen, j, m)
    ensures Residue(u + x * w, m) == Residue(u + x * Pow(wlen, j), m)
    ensures Residue(u - x * w, m) == Residue(u - x * Pow(wlen, j), m)
  {
    ResidueMod(u + x * w, m);
    ResidueMod(u + x * Pow(wlen, j), m);
    ResidueMod(u - x * w, m);
    ResidueMod(u - x * Pow(wlen, j), m);
    if j == 0 {
      assert Pow(wlen, 0) == 1;
    } else {
      ResidueMod(Pow(wlen, j), m);
      ModOfMod(Pow(wlen, j), m);
      CongMul(x, x, w, Pow(wlen, j), m);
      CongAdd(u, u, x * w, x * Pow(wlen, j), m);
      CongSub(u, u, x * w, x * Pow(wlen, j), m);
    }
  }

  /** The body of the inner loop of `ntt`: `v = data[c + h] * w % m`, then
      `(u + v) % m` and `(u + m - v) % m`, which are `u + x*w` and `u - x*w`
      reduced modulo `m`. The operands must fit a `u64`. */
  method Butterfly2(a: array<nat>, c: nat, h: nat, m: nat, w: nat)
    requires c + h < a.Length && m >= 1 && a[c] + m < U64 && a[c + h] * w < U64
    modifies a
    ensures a[..] == ButterflyApplied2(old(a[..]), c, h, m, w)
  {
    ghost var u0, x0 := a[c], a[c + h];
    var u := a[c];
    var v := a[c + h] * w % m;
    a[c] := (u + v) % m;
    a[c + h] := (u + m - v) % m;
    ButterflyMod(u0, x0 * w, m);
  }

  /** `x` with the butterfly on the entries `c` and `c + h` (twiddle `w`)
      written back in place. */
  function ButterflyApplied2(x: seq<nat>, c: nat, h: nat, m: nat, w: nat): (r: seq<nat>)
    requires c + h < |x| && m >= 1
    ensures |r| == |x|
  {
    x[c := Residue(x[c] + x[c + h] * w, m)][c + h := Residue(x[c] as int - x[c + h] * w, m)]
  }

  /** Reducing the product first does not change the butterfly's outputs. */
  lemma ButterflyMod(u: nat, p: nat, m: nat)
    requires m >= 1
    ensures (u + p % m) % m == Residue(u + p, m)
    ensures (u + m - p % m) % m == Residue(u - p, m)
  {
    ResidueMod(u + p, m);
    ResidueMod(u - p, m);
    ModOfMod(p, m);
    CongAdd(u, u, p % m, p, m);
    CongSub(u + m, u, p % m, p, m) by {
      ModShift(u, 1, m);
    }
  }

  /** `FHEContext::intt`: `ntt` (whose refusal is passed on), then the tail
      reversed and every entry scaled by `mod_inv(size)`. A modulus below 2
      underflows `modulus - 2`, and an empty slice panics at `data[1..]`.
      A one-entry slice takes any `u64` modulus: `mod_inv(1)` is 1. */
  method Intt(ctx: FheContext, data: array<nat>) returns (r: Outcome)
    requires ctx.root < U64 && ctx.size < U64 && ctx.modulus < U64
    requires data.Length == ctx.size ==> Transformable(data[..], ctx.modulus) && data.Length >= 1 && 2 <= ctx.modulus
    modifies data
    ensures data.Length != ctx.size ==> r.Err? && data[..] == old(data[..])
    ensures data.Length == ctx.size ==> r.Ok? && data[..] == InttTransform(old(data[..]), ctx.modulus, ctx.root)
  {
    r := Ntt(ctx, data);
    if r.Err? {
      return;
    }
    ghost var y := data[..];
    var m := ctx.modulus;
    assert ctx.size == 1 ==> ctx.size % m == 1;
    var nInv := ModInvContext(ctx, ctx.size);
    ReverseTail(data);
    assert data[..] == RevTail(y);
    forall x | 0 <= x < data.Length
      ensures data[x] * nInv < U64
    {
      ScaleEntry(old(data[..]), ctx.root, x, nInv, m);
    }
    ScaleAll(data, nInv, m);
  }

  /** The scaling loop of `intt`: every entry becomes `val * n_inv % m`; the
      products must fit a `u64`. */
  method ScaleAll(a: array<nat>, c: nat, m: nat)
    requires m >= 1 && forall x :: 0 <= x < a.Length ==> a[x] * c < U64
    modifies a
    ensures a[..] == Scale(old(a[..]), c, m)
  {
    ghost var s := a[..];
    for x := 0 to a.Length
      invariant forall k :: 0 <= k < x ==> a[k] == Residue(s[k] * c, m)
      invariant forall k :: x <= k < a.Length ==> a[k] == s[k]
    {
      ResidueMod(s[x] * c, m);
      a[x] := a[x] * c % m;
    }
  }

  /** Each product the scaling loop forms fits a `u64`. */
  lemma ScaleEntry(s: seq<nat>, root: nat, x: nat, nInv: nat, m: nat)
    requires x < |s| && 2 <= m && Transformable(s, m) && nInv == ContextPow(|s|, m - 2, m)
    ensures RevTail(NttTransform(s, m, root))[x] * nInv < U64
  {
    var y := NttTransform(s, m, root);
    if |s| >= 2 {
      var k := if x == 0 then 0 else |s| - x;
      NttReduced(s, m, root, k);
      SmallProduct(RevTail(y)[x], nInv, m);
    } else {
      PowOne(m - 2);
      assert nInv == 1 by {
        DivModUnique(1, m, 0, 1);
        ResidueMod(1, m);
      }
    }
  }

  /** `intt` of a one-entry slice reduces its entry: the transform leaves
      it, the empty tail reverses to itself and `mod_inv(1)` is 1, for every
      modulus from 2 on. */
  lemma OneEntryInverse(v: nat, m: nat, root: nat)
    requires m >= 2
    ensures InttTransform([v], m, root) == [v % m]
  {
    PowOne(m - 2);
    assert ContextPow(1, m - 2, m) == 1 by {
      DivModUnique(1, m, 0, 1);
      ResidueMod(1, m);
    }
    assert RevTail([v]) == [v];
    ResidueMod(v * 1, m);
  }

  lemma {:induction false} PowOne(e: nat)
    ensures Pow(1, e) == 1
  {
    if e > 0 {
      PowOne(e - 1);
    }
  }

  /** `data[1..].reverse()`: the tail reversed in place by exchanges from
      both ends. */
  method ReverseTail(a: array<nat>)
    requires a.Length >= 1
    modifies a
    ensures a[..] == RevTail(old(a[..]))
  {
    ghost var s := a[..];
    var n := a.Length;
    var lo, hi := 1, n - 1;
    while lo < hi
      invariant 1 <= lo && hi <= n - 1 && lo + hi == n && lo <= hi + 1
      invariant a[0] == s[0]
      invariant forall x :: 1 <= x < lo ==> a[x] == s[n - x]
      invariant forall x :: hi < x < n ==> a[x] == s[n - x]
      invariant forall x :: lo <= x <= hi ==> a[x] == s[x]
    {
      a[lo], a[hi] := a[hi], a[lo];
      lo, hi := lo + 1, hi - 1;
    }
    assert forall x :: 1 <= x < n ==> a[x] == RevTail(s)[x];
    assert a[..] == RevTail(s);
  }
}
