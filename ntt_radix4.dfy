/**
 * The radix-4 forward transform of src/ntt.rs: an in-place bit-reversal
 * permutation followed by radix-4 butterfly stages of length 4, 16, 64, ...
 * up to the slice length, built from the modular kernel. The butterfly is
 * modelled as written (its odd outputs multiply `t3` by the stage root
 * `wlen`), and nothing requires `root` to be a root of unity.
 */
module NttRadix4 {
  import opened NumberTheory
  import opened Bits
  import opened Modular

  /** `usize::reverse_bits`. */
  function ReverseBits(i: nat): nat
  {
    BitRev(i, WordBits)
  }

  /** `bit_reverse`: entry `i` trades places with entry `rev(i)` once, when
      `i < rev(i)`; the result is the bit-reversal permutation. */
  method BitReverse(a: array<nat>)
    requires IsPow2(a.Length) && 2 <= a.Length < UsizeLimit
    modifies a
    ensures a[..] == BitReversed(old(a[..]))
    ensures multiset(a[..]) == multiset(old(a[..]))
  {
    var n := a.Length;
    var logN := TrailingZeros(n);
    LogBelowWord(n);
    ghost var s := a[..];
    PartlyReversedStart(s, logN);
    for i := 0 to n
      invariant a[..] == PartlyReversed(s, logN, i)
      invariant multiset(a[..]) == multiset(s)
    {
      ReverseBitsShift(i, logN);
      BitRevBound(i, logN);
      var j := ShiftRight(ReverseBits(i), WordBits - logN);
      ghost var prev := a[..];
      if i < j {
        Swap(a, i, j);
      }
      PartlyReversedStep(s, logN, i, j, prev, a[..]);
    }
    PartlyReversedEnd(s, logN);
  }

  /** Exchanges entries `i` and `j` of `a`. */
  method Swap(a: array<nat>, i: nat, j: nat)
    requires i < a.Length && j < a.Length
    modifies a
    ensures a[..] == old(a[..])[i := old(a[j])][j := old(a[i])]
  {
    a[i], a[j] := a[j], a[i];
  }

  /** Entry `rev(x)` of `s`, where `|s| == 2^k`. */
  function RevAt(s: seq<nat>, k: nat, x: nat): nat
    requires |s| == Pow2(k)
  {
    BitRevBound(x, k);
    s[BitRev(x, k)]
  }

  /** The slice after the iterations `0 .. i` of `bit_reverse`: exactly the
      pairs `{x, rev(x)}` with one member below `i` have been exchanged. */
  ghost function PartlyReversed(s: seq<nat>, k: nat, i: nat): (r: seq<nat>)
    requires |s| == Pow2(k)
    ensures |r| == |s|
  {
    seq(|s|, x requires 0 <= x < |s| => if x < i || BitRev(x, k) < i then RevAt(s, k, x) else s[x])
  }

  lemma PartlyReversedStart(s: seq<nat>, k: nat)
    requires |s| == Pow2(k)
    ensures PartlyReversed(s, k, 0) == s
  {
    assert forall x :: 0 <= x < |s| ==> PartlyReversed(s, k, 0)[x] == s[x];
  }

  /** Iteration `i` (with `j == rev(i)`) turns the state after `0 .. i` into
      the state after `0 .. i + 1`. */
  lemma PartlyReversedStep(s: seq<nat>, k: nat, i: nat, j: nat, prev: seq<nat>, next: seq<nat>)
    requires |s| == Pow2(k) && i < |s| && j == BitRev(i, k) && j < |s|
    requires prev == PartlyReversed(s, k, i)
    requires next == if i < j then prev[i := prev[j]][j := prev[i]] else prev
    ensures next == PartlyReversed(s, k, i + 1) && multiset(next) == multiset(prev)
  {
    if i < j { SwapMultiset(prev, i, j); }
    BitRevInvolution(i, k);
    var goal := PartlyReversed(s, k, i + 1);
    forall x | 0 <= x < |s|
      ensures next[x] == goal[x]
    {
      BitRevBound(x, k);
      BitRevInvolution(x, k);
    }
  }

  /** Exchanging two entries keeps the multiset of entries. */
  lemma SwapMultiset(p: seq<nat>, i: nat, j: nat)
    requires i < |p| && j < |p|
    ensures multiset(p[i := p[j]][j := p[i]]) == multiset(p)
  {
  }

  lemma PartlyReversedEnd(s: seq<nat>, k: nat)
    requires IsPow2(|s|) && k == TrailingZeros(|s|) && |s| == Pow2(k)
    ensures PartlyReversed(s, k, |s|) == BitReversed(s)
  {
    forall x | 0 <= x < |s|
      ensures PartlyReversed(s, k, |s|)[x] == BitReversed(s)[x]
    {
      BitReversedAt(s, x);
    }
  }

  /** The four outputs of one butterfly as the loop body computes them with
      the modular kernel, from its inputs after the twiddle multiplications. */
  function Butterfly4(a0: nat, a1: nat, a2: nat, a3: nat, wlen: nat, m: nat): (r: seq<nat>)
    requires a0 < U64 && a1 < U64 && a2 < U64 && a3 < U64 && wlen < U64 && 1 <= m < U64
    ensures |r| == 4 && r[0] < m && r[1] < m && r[2] < m && r[3] < m
  {
    var t0 := ModAdd(a0, a2, m);
    var t1 := ModAdd(a1, a3, m);
    var t2 := ModSub(a0, a2, m);
    var t3 := ModSub(a1, a3, m);
    [ModAdd(t0, t1, m), ModAdd(t2, ModMul(wlen, t3, m), m), ModSub(t0, t1, m), ModSub(t2, ModMul(wlen, t3, m), m)]
  }

  /** The butterfly in exact arithmetic: from `x0` and the twiddled inputs
      `x1`, `x2`, `x3` it forms `x0 + x2 +- (x1 + x3)` and
      `x0 - x2 +- wlen * (x1 - x3)`, reduced modulo `m`. */
  function ButterflyOut(x0: int, x1: int, x2: int, x3: int, wlen: int, m: nat): (r: seq<nat>)
    requires m >= 1
    ensures |r| == 4
  {
    [Residue(x0 + x2 + (x1 + x3), m), Residue(x0 - x2 + wlen * (x1 - x3), m),
     Residue(x0 + x2 - (x1 + x3), m), Residue(x0 - x2 - wlen * (x1 - x3), m)]
  }

  /** The butterfly's outputs are the residues of its exact sums. */
  lemma ButterflyOutMod(x0: int, x1: int, x2: int, x3: int, wlen: int, m: nat)
    requires m >= 1
    ensures ButterflyOut(x0, x1, x2, x3, wlen, m) ==
      [(x0 + x2 + (x1 + x3)) % m, (x0 - x2 + wlen * (x1 - x3)) % m,
       (x0 + x2 - (x1 + x3)) % m, (x0 - x2 - wlen * (x1 - x3)) % m]
  {
    ResidueMod(x0 + x2 + (x1 + x3), m);
    ResidueMod(x0 - x2 + wlen * (x1 - x3), m);
    ResidueMod(x0 + x2 - (x1 + x3), m);
    ResidueMod(x0 - x2 - wlen * (x1 - x3), m);
  }

  /** The kernel's butterfly computes the exact butterfly on the products
      `a_g * w_g`, reduced. */
  lemma ButterflyKernel(a0: nat, a1: nat, a2: nat, a3: nat, w1: nat, w2: nat, w3: nat, wlen: nat, m: nat)
    requires a0 < U64 && a1 < U64 && a2 < U64 && a3 < U64 && w1 < U64 && w2 < U64 && w3 < U64
    requires wlen < U64 && 1 <= m < U64
    ensures Butterfly4(a0, ModMul(a1, w1, m), ModMul(a2, w2, m), ModMul(a3, w3, m), wlen, m)
         == ButterflyOut(a0, a1 * w1, a2 * w2, a3 * w3, wlen, m)
  {
    var x1, x2, x3 := a1 * w1, a2 * w2, a3 * w3;
    var b1, b2, b3 := ModMul(a1, w1, m), ModMul(a2, w2, m), ModMul(a3, w3, m);
    MulCong(a1, w1, a1, w1, m);
    MulCong(a2, w2, a2, w2, m);
    MulCong(a3, w3, a3, w3, m);
    ModOfMod(x1, m);
    ModOfMod(x2, m);
    ModOfMod(x3, m);
    var t0, t1, t2, t3 := ModAdd(a0, b2, m), ModAdd(b1, b3, m), ModSub(a0, b2, m), ModSub(b1, b3, m);
    AddCong(a0, b2, a0, x2, m);
    AddCong(b1, b3, x1, x3, m);
    SubCong(a0, b2, a0, x2, m);
    SubCong(b1, b3, x1, x3, m);
    ModOfMod(a0 + x2, m);
    ModOfMod(x1 + x3, m);
    ModOfMod(a0 - x2, m);
    ModOfMod(x1 - x3, m);
    var u := ModMul(wlen, t3, m);
    MulCong(wlen, t3, wlen, x1 - x3, m);
    ModOfMod(wlen * (x1 - x3), m);
    AddCong(t0, t1, a0 + x2, x1 + x3, m);
    AddCong(t2, u, a0 - x2, wlen * (x1 - x3), m);
    SubCong(t0, t1, a0 + x2, x1 + x3, m);
    SubCong(t2, u, a0 - x2, wlen * (x1 - x3), m);
    ButterflyOutMod(a0, x1, x2, x3, wlen, m);
  }

  /** The exact butterfly depends on its inputs only through their residues. */
  lemma ButterflyCong(x0: int, x1: int, x2: int, x3: int, y1: int, y2: int, y3: int, wlen: int, m: nat)
    requires m >= 1 && x1 % m == y1 % m && x2 % m == y2 % m && x3 % m == y3 % m
    ensures ButterflyOut(x0, x1, x2, x3, wlen, m) == ButterflyOut(x0, y1, y2, y3, wlen, m)
  {
    CongAdd(x0, x0, x2, y2, m);
    CongSub(x0, x0, x2, y2, m);
    CongAdd(x1, y1, x3, y3, m);
    CongSub(x1, y1, x3, y3, m);
    CongMul(wlen, wlen, x1 - x3, y1 - y3, m);
    CongAdd(x0 + x2, x0 + y2, x1 + x3, y1 + y3, m);
    CongSub(x0 + x2, x0 + y2, x1 + x3, y1 + y3, m);
    CongAdd(x0 - x2, x0 - y2, wlen * (x1 - x3), wlen * (y1 - y3), m);
    CongSub(x0 - x2, x0 - y2, wlen * (x1 - x3), wlen * (y1 - y3), m);
    ButterflyOutMod(x0, x1, x2, x3, wlen, m);
    ButterflyOutMod(x0, y1, y2, y3, wlen, m);
  }

  /** `wlen^e mod m` for `e < n`: the twiddle factors of a stage. */
  function Powers(wlen: nat, n: nat, m: nat): (r: seq<nat>)
    requires m >= 1
    ensures |r| == n && forall e :: 0 <= e < n ==> r[e] < m
  {
    if n == 0 then [] else Powers(wlen, n - 1, m) + [Residue(Pow(wlen, n - 1), m)]
  }

  lemma {:induction false} PowersAt(wlen: nat, n: nat, m: nat, e: nat)
    requires m >= 1 && e < n
    ensures Powers(wlen, n, m)[e] == Pow(wlen, e) % m
    decreases n
  {
    if e < n - 1 {
      PowersAt(wlen, n - 1, m, e);
    } else {
      ResidueMod(Pow(wlen, e), m);
    }
  }

  /** Multiplying an accumulator congruent to `wlen^e` by one congruent to
      `wlen^d` gives one congruent to `wlen^(e + d)`. */
  lemma TableStep(wlen: nat, n: nat, m: nat, e: nat, d: nat, f: nat, w: nat, step: nat)
    requires 1 <= m < U64 && w < U64 && step < U64 && f == e + d && f < n
    requires w % m == Powers(wlen, n, m)[e] % m && step % m == Powers(wlen, n, m)[d] % m
    ensures ModMul(w, step, m) % m == Powers(wlen, n, m)[f] % m
  {
    PowersAt(wlen, n, m, e);
    PowersAt(wlen, n, m, d);
    PowersAt(wlen, n, m, e + d);
    ModOfMod(Pow(wlen, e), m);
    ModOfMod(Pow(wlen, d), m);
    ModOfMod(Pow(wlen, e + d), m);
    TwiddleAdvance(w, step, wlen, e, d, m);
  }

  /** The twiddle accumulators of column `j` are words congruent to the
      table entries `j`, `2j` and `3j`. */
  predicate Accumulators(tw: seq<nat>, j: nat, w1: nat, w2: nat, w3: nat, m: nat)
    requires 3 * j < |tw| && m >= 1
  {
    w1 < U64 && w2 < U64 && w3 < U64 &&
    w1 % m == tw[j] % m && w2 % m == tw[2 * j] % m && w3 % m == tw[3 * j] % m
  }

  /** Stepping the accumulators by `wlen`, `wlen^2`, `wlen^3` moves them
      from column `j` to column `j + 1`. */
  lemma AccumulatorsStep(wlen: nat, len: nat, m: nat, j: nat, w1: nat, w2: nat, w3: nat, wlen2: nat, wlen3: nat)
    requires 1 <= m < U64 && wlen < U64 && len >= 4 && 4 * (j + 1) <= len
    requires wlen2 == ModMul(wlen, wlen, m) && wlen3 == ModMul(wlen2, wlen, m)
    requires Accumulators(Powers(wlen, len, m), j, w1, w2, w3, m)
    ensures Accumulators(Powers(wlen, len, m), j + 1, ModMul(w1, wlen, m), ModMul(w2, wlen2, m), ModMul(w3, wlen3, m), m)
  {
    StageTwiddles(wlen, len, m, wlen2, wlen3);
    TableStep(wlen, len, m, j, 1, j + 1, w1, wlen);
    TableStep(wlen, len, m, 2 * j, 2, 2 * (j + 1), w2, wlen2);
    TableStep(wlen, len, m, 3 * j, 3, 3 * (j + 1), w3, wlen3);
  }

  /** The accumulators `1`, `wlen`, `wlen^2`, `wlen^3` the stage starts from. */
  lemma StageTwiddles(wlen: nat, n: nat, m: nat, wlen2: nat, wlen3: nat)
    requires 1 <= m < U64 && wlen < U64 && n >= 4
    requires wlen2 == ModMul(wlen, wlen, m) && wlen3 == ModMul(wlen2, wlen, m)
    ensures 1 % m == Powers(wlen, n, m)[0] % m && wlen % m == Powers(wlen, n, m)[1] % m
    ensures wlen2 % m == Powers(wlen, n, m)[2] % m && wlen3 % m == Powers(wlen, n, m)[3] % m
  {
    PowersAt(wlen, n, m, 0);
    PowersAt(wlen, n, m, 1);
    assert Pow(wlen, 1) == wlen;
    ModOfMod(1, m);
    ModOfMod(wlen, m);
    TableStep(wlen, n, m, 1, 1, 2, wlen, wlen);
    TableStep(wlen, n, m, 2, 1, 3, wlen2, wlen);
  }

  /** Column `j` and output `g` of offset `o` in a block of `4 * q` entries. */
  function Column(o: nat, q: nat): (r: (nat, nat))
    requires o < 4 * q
    ensures r.0 < 4 && r.1 < q
  {
    if o < q then (0, o) else if o < 2 * q then (1, o - q) else if o < 3 * q then (2, o - 2 * q) else (3, o - 3 * q)
  }

  /** Entry `o` of a block `t` after its butterflies: output `g` of the
      butterfly on column `j`, which reads the four entries `j + g * |t|/4`,
      multiplied by `tw[g * j]`. */
  function BlockAt(t: seq<nat>, tw: seq<nat>, wlen: nat, m: nat, o: nat): (r: nat)
    requires |t| >= 4 && |t| % 4 == 0 && o < |t| && Words(t)
    requires |tw| == |t| && Words(tw) && 1 <= m < U64 && wlen < U64
    ensures r < m
  {
    var q := |t| / 4;
    var (g, j) := Column(o, q);
    ButterflyOut(t[j], t[j + q] * tw[j], t[j + 2 * q] * tw[2 * j], t[j + 3 * q] * tw[3 * j], wlen, m)[g]
  }

  /** A block of length `len` after the butterflies of its stage. */
  function Block4(t: seq<nat>, tw: seq<nat>, wlen: nat, m: nat): (r: seq<nat>)
    requires |t| >= 4 && |t| % 4 == 0 && Words(t)
    requires |tw| == |t| && Words(tw) && 1 <= m < U64 && wlen < U64
    ensures |r| == |t| && forall o :: 0 <= o < |r| ==> r[o] < m
  {
    var f := BlockEntry(t, tw, wlen, m);
    var r := Tabulate(f, 0, |t|);
    assert forall o :: 0 <= o < |r| ==> r[o] < m by {
      forall o | 0 <= o < |r| ensures r[o] < m {
        TabulateAt(f, 0, |t|, o);
      }
    }
    r
  }

  /** `BlockAt` as a function of the position (zero past the block). */
  function BlockEntry(t: seq<nat>, tw: seq<nat>, wlen: nat, m: nat): nat -> nat
    requires |t| >= 4 && |t| % 4 == 0 && Words(t)
    requires |tw| == |t| && Words(tw) && 1 <= m < U64 && wlen < U64
  {
    (o: nat) => if o < |t| then BlockAt(t, tw, wlen, m, o) else 0
  }

  /** The entries `f(o) .. f(o + k - 1)`, built in halves so that a proof
      about the whole sequence does not meet the entries themselves. */
  function Tabulate(f: nat -> nat, o: nat, k: nat): (r: seq<nat>)
    ensures |r| == k
    decreases k
  {
    if k == 0 then []
    else if k == 1 then [f(o)]
    else Tabulate(f, o, k / 2) + Tabulate(f, o + k / 2, k - k / 2)
  }

  /** Entry `x` of `Tabulate(f, o, k)` is `f(o + x)`. */
  lemma {:induction false} TabulateAt(f: nat -> nat, o: nat, k: nat, x: nat)
    requires x < k
    ensures Tabulate(f, o, k)[x] == f(o + x)
    decreases k
  {
    if k == 1 {
      assert Tabulate(f, o, k) == [f(o)];
    } else {
      var h := k / 2;
      var left, right := Tabulate(f, o, h), Tabulate(f, o + h, k - h);
      TabulateHalves(f, o, k);
      if x < h {
        TabulateAt(f, o, h, x);
        assert (left + right)[x] == left[x];
      } else {
        TabulateAt(f, o + h, k - h, x - h);
        assert (left + right)[x] == right[x - h];
      }
    }
  }

  lemma TabulateHalves(f: nat -> nat, o: nat, k: nat)
    requires k >= 2
    ensures Tabulate(f, o, k) == Tabulate(f, o, k / 2) + Tabulate(f, o + k / 2, k - k / 2)
  {
  }

  /** Entry `o` of `Block4` is `BlockAt(o)`. */
  lemma Block4At(t: seq<nat>, tw: seq<nat>, wlen: nat, m: nat, o: nat)
    requires |t| >= 4 && |t| % 4 == 0 && o < |t| && Words(t)
    requires |tw| == |t| && Words(tw) && 1 <= m < U64 && wlen < U64
    ensures Block4(t, tw, wlen, m)[o] == BlockAt(t, tw, wlen, m, o)
  {
    var f := BlockEntry(t, tw, wlen, m);
    TabulateAt(f, 0, |t|, o);
    assert f(o) == BlockAt(t, tw, wlen, m, o);
  }

  /** The slice after the stage of length `len` with twiddle table `tw`:
      every block of `len` entries gets its butterflies. A tail shorter than
      `len`, which the source's lengths never leave, stays as it is. */
  function Stage4(s: seq<nat>, len: nat, tw: seq<nat>, wlen: nat, m: nat): (r: seq<nat>)
    requires len >= 4 && len % 4 == 0 && Words(s)
    requires |tw| == len && Words(tw) && 1 <= m < U64 && wlen < U64
    ensures |r| == |s| && Words(r)
    decreases |s|
  {
    if |s| < len then s
    else Block4(s[..len], tw, wlen, m) + Stage4(s[len..], len, tw, wlen, m)
  }

  /** Running the stage block by block: appending a block to a slice of
      whole blocks appends its butterflies to the stage's output. */
  lemma {:induction false} Stage4Snoc(p: seq<nat>, blk: seq<nat>, len: nat, tw: seq<nat>, wlen: nat, m: nat)
    requires len >= 4 && len % 4 == 0 && Words(p) && Words(blk)
    requires |tw| == len && Words(tw) && 1 <= m < U64 && wlen < U64
    requires |p| % len == 0 && |blk| == len
    ensures Words(p + blk)
    ensures Stage4(p + blk, len, tw, wlen, m) == Stage4(p, len, tw, wlen, m) + Block4(blk, tw, wlen, m)
    decreases |p|
  {
    if |p| < len {
      DivModUnique(|p|, len, 0, |p|);
      assert p + blk == blk;
      assert blk[..len] == blk && blk[len..] == [];
    } else {
      var head, rest := p[..len], p[len..];
      ModShift(|p| - len, 1, len);
      Stage4Snoc(rest, blk, len, tw, wlen, m);
      assert (p + blk)[..len] == head;
      assert (p + blk)[len..] == rest + blk;
      calc {
        Stage4(p + blk, len, tw, wlen, m);
        Block4(head, tw, wlen, m) + Stage4(rest + blk, len, tw, wlen, m);
        Block4(head, tw, wlen, m) + (Stage4(rest, len, tw, wlen, m) + Block4(blk, tw, wlen, m));
        (Block4(head, tw, wlen, m) + Stage4(rest, len, tw, wlen, m)) + Block4(blk, tw, wlen, m);
        Stage4(p, len, tw, wlen, m) + Block4(blk, tw, wlen, m);
      }
    }
  }

  /** The root of the stage of length `len`: `root^((m - 1) / len) mod m`. */
  function StageRoot(root: nat, len: nat, m: nat): (w: nat)
    requires 1 <= m < U64 && len > 0
    ensures w < U64
  {
    ExpMod(root, StageExponent(m, len), m)
  }

  /** `(m - 1) / len`, the exponent of the stage root (see `StageExponentDiv`). */
  function StageExponent(m: nat, len: nat): (e: nat)
    requires m >= 1 && len > 0
    ensures e < m
  {
    Quot(m - 1, len)
  }

  lemma StageExponentDiv(m: nat, len: nat)
    requires m >= 1 && len > 0
    ensures StageExponent(m, len) == (m - 1) / len
  {
    QuotDiv(m - 1, len);
  }

  /** The stages of length `len`, `4 * len`, ... that are at most `|s|`. */
  function Stages4(s: seq<nat>, len: nat, m: nat, root: nat): (r: seq<nat>)
    requires len >= 4 && len % 4 == 0 && 1 <= m < U64 && Words(s)
    ensures |r| == |s|
    decreases if len <= |s| then |s| - len + 1 else 0, 2
  {
    if len > |s| then s else StagesFrom(s, len, m, root)
  }

  /** The stage of length `len <= |s|` followed by the longer ones. */
  function StagesFrom(s: seq<nat>, len: nat, m: nat, root: nat): (r: seq<nat>)
    requires 4 <= len <= |s| && len % 4 == 0 && 1 <= m < U64 && Words(s)
    ensures |r| == |s|
    decreases |s| - len + 1, 1
  {
    StagesWith(s, len, m, root, StageRoot(root, len, m))
  }

  /** The stage of length `len` with the stage root `wlen`, followed by the
      longer ones. */
  function StagesWith(s: seq<nat>, len: nat, m: nat, root: nat, wlen: nat): (r: seq<nat>)
    requires 4 <= len <= |s| && len % 4 == 0 && 1 <= m < U64 && wlen < U64 && Words(s)
    ensures |r| == |s|
    decreases |s| - len + 1, 0
  {
    Stages4(Stage4(s, len, Powers(wlen, len, m), wlen, m), NextLen(len), m, root)
  }

  /** The length of the next stage, still a multiple of 4. */
  function NextLen(len: nat): (r: nat)
    ensures r == 4 * len && r % 4 == 0
  {
    MulModZero(4, len);
    4 * len
  }

  /** What `ntt_forward_radix4` leaves in the slice. */
  function Radix4Transform(s: seq<nat>, m: nat, root: nat): (r: seq<nat>)
    requires IsPow2(|s|) && 1 <= m < U64 && Words(s)
    ensures |r| == |s|
  {
    BitReversedWords(s);
    Stages4(BitReversed(s), 4, m, root)
  }

  lemma BitReversedWords(s: seq<nat>)
    requires IsPow2(|s|) && Words(s)
    ensures Words(BitReversed(s))
  {
    forall x | 0 <= x < |s|
      ensures BitReversed(s)[x] < U64
    {
      BitReversedAt(s, x);
    }
  }

  /** Every entry `ntt_forward_radix4` leaves is reduced below `m`: the
      length-4 stage always runs and covers the whole slice. */
  lemma Radix4Reduced(s: seq<nat>, m: nat, root: nat)
    requires IsPow2(|s|) && 4 <= |s| && 1 <= m < U64 && Words(s)
    ensures forall x :: 0 <= x < |s| ==> Radix4Transform(s, m, root)[x] < m
  {
    BitReversedWords(s);
    assert IsPow2(1) && IsPow2(2) && IsPow2(4);
    StagesBelow(BitReversed(s), 4, m, root);
  }

  /** The stages from `len` on leave every entry reduced. */
  lemma {:induction false} StagesBelow(s: seq<nat>, len: nat, m: nat, root: nat)
    requires IsPow2(|s|) && IsPow2(len) && 4 <= len <= |s| && len % 4 == 0
    requires 1 <= m < U64 && Words(s)
    ensures forall x :: 0 <= x < |s| ==> Stages4(s, len, m, root)[x] < m
    decreases |s| - len
  {
    var w := StageRoot(root, len, m);
    var tw := Powers(w, len, m);
    var t := Stage4(s, len, tw, w, m);
    Pow2Divides(len, |s|);
    DivModUnique(|s|, len, |s| / len, 0);
    Stage4Below(s, len, tw, w, m, |s| / len);
    assert Stages4(s, len, m, root) == StagesFrom(s, len, m, root);
    assert StagesFrom(s, len, m, root) == StagesWith(s, len, m, root, w);
    assert StagesWith(s, len, m, root, w) == Stages4(t, NextLen(len), m, root);
    if NextLen(len) <= |s| {
      Pow2Quad(len);
      StagesBelow(t, NextLen(len), m, root);
    } else {
      assert Stages4(t, NextLen(len), m, root) == t;
    }
  }

  /** A stage over whole blocks leaves every entry reduced. */
  lemma {:induction false} Stage4Below(s: seq<nat>, len: nat, tw: seq<nat>, wlen: nat, m: nat, k: nat)
    requires len >= 4 && len % 4 == 0 && Words(s)
    requires |tw| == len && Words(tw) && 1 <= m < U64 && wlen < U64 && |s| == len * k
    ensures forall x :: 0 <= x < |s| ==> Stage4(s, len, tw, wlen, m)[x] < m
    decreases k
  {
    if k > 0 {
      MulAtLeast(len, k);
      MulPredecessor(len, k);
      var rest := s[len..];
      assert Words(rest) by {
        forall y | 0 <= y < |rest| ensures rest[y] < U64 {
          assert rest[y] == s[len + y];
        }
      }
      Stage4Below(rest, len, tw, wlen, m, k - 1);
      var b := Block4(s[..len], tw, wlen, m);
      var r := Stage4(rest, len, tw, wlen, m);
      assert Stage4(s, len, tw, wlen, m) == b + r;
      forall x | 0 <= x < |s|
        ensures (b + r)[x] < m
      {
        if x >= len {
          assert (b + r)[x] == r[x - len];
        }
      }
    }
  }

  lemma MulPredecessor(len: nat, k: nat)
    requires k >= 1
    ensures len * k - len == len * (k - 1)
  {
  }

  /** Eight entries, a power of two that is not a power of four: the stage
      loop runs the length-4 stage only and stops at length 16, so the
      two halves are never combined by a final radix-2 stage. */
  lemma EightRunsOneStage(s: seq<nat>, m: nat, root: nat)
    requires |s| == 8 && 1 <= m < U64 && Words(s)
    ensures IsPow2(|s|) && Words(BitReversed(s))
    ensures var w := StageRoot(root, 4, m);
      Radix4Transform(s, m, root) == Stage4(BitReversed(s), 4, Powers(w, 4, m), w, m)
  {
    assert IsPow2(1) && IsPow2(2) && IsPow2(4) && IsPow2(8);
    BitReversedWords(s);
    var t := BitReversed(s);
    var w := StageRoot(root, 4, m);
    assert Radix4Transform(s, m, root) == Stages4(t, 4, m, root);
    assert Stages4(t, 4, m, root) == StagesWith(t, 4, m, root, w);
    var u := Stage4(t, 4, Powers(w, 4, m), w, m);
    assert NextLen(4) == 16;
    assert Stages4(u, 16, m, root) == u;
  }

  /** `ntt_forward_radix4`. The length stays below `2^62`: from there on
      `len <<= 2` wraps a `usize` stage length of `2^62` to 0, and the next
      stage root divides by zero. */
  method NttForwardRadix4(poly: array<nat>, modulus: nat, root: nat)
    requires IsPow2(poly.Length) && 4 <= poly.Length < UsizeLimit / 4
    requires 1 <= modulus < U64 && root < U64 && Words(poly[..])
    modifies poly
    ensures poly[..] == Radix4Transform(old(poly[..]), modulus, root)
  {
    ghost var s0 := poly[..];
    BitReverse(poly);
    BitReversedWords(s0);
    RunStages(poly, modulus, root);
  }

  /** The stage loop of `ntt_forward_radix4`: lengths 4, 16, 64, ... up
      to the length of the slice. */
  method RunStages(poly: array<nat>, modulus: nat, root: nat)
    requires IsPow2(poly.Length) && 4 <= poly.Length
    requires 1 <= modulus < U64 && root < U64 && Words(poly[..])
    modifies poly
    ensures Words(old(poly[..])) && poly[..] == Stages4(old(poly[..]), 4, modulus, root)
  {
    var n := poly.Length;
    ghost var s0 := poly[..];
    var len: nat := 4;
    while len <= n
      invariant IsPow2(len) && len >= 4 && len % 4 == 0
      invariant Words(poly[..])
      invariant Stages4(poly[..], len, modulus, root) == Stages4(s0, 4, modulus, root)
      decreases n - len
    {
      Stage(poly, len, modulus, root);
      Pow2Quad(len);
      len := NextLen(len);
    }
  }

  /** One pass of the stage loop of `ntt_forward_radix4`: the stage root
      and its square and cube, then the blocks of length `len`. */
  method Stage(poly: array<nat>, len: nat, modulus: nat, root: nat)
    requires IsPow2(poly.Length) && IsPow2(len) && 4 <= len <= poly.Length && len % 4 == 0
    requires 1 <= modulus < U64 && root < U64 && Words(poly[..])
    modifies poly
    ensures Words(poly[..]) && Stages4(poly[..], NextLen(len), modulus, root) == Stages4(old(poly[..]), len, modulus, root)
  {
    ghost var cur := poly[..];
    Pow2Divides(len, poly.Length);
    var wlen := ModPow(root, StageExponent(modulus, len), modulus);
    var wlen2 := ModMul(wlen, wlen, modulus);
    var wlen3 := ModMul(wlen2, wlen, modulus);
    RunStage4(poly, len, modulus, wlen, wlen2, wlen3);
    StagesStep(cur, poly[..], len, modulus, root, wlen);
  }

  /** Running one stage and then the remaining ones is running them all. */
  lemma StagesStep(cur: seq<nat>, next: seq<nat>, len: nat, m: nat, root: nat, wlen: nat)
    requires len >= 4 && len % 4 == 0 && len <= |cur| && 1 <= m < U64 && Words(cur)
    requires wlen == StageRoot(root, len, m)
    requires next == Stage4(cur, len, Powers(wlen, len, m), wlen, m)
    ensures Words(next) && Stages4(next, NextLen(len), m, root) == Stages4(cur, len, m, root)
  {
    assert Stages4(cur, len, m, root) == StagesFrom(cur, len, m, root) == StagesWith(cur, len, m, root, wlen);
  }

  /** One stage of `ntt_forward_radix4`: the blocks of length `len`, one
      after the other. */
  method RunStage4(a: array<nat>, len: nat, m: nat, wlen: nat, wlen2: nat, wlen3: nat)
    requires len >= 4 && len % 4 == 0 && a.Length % len == 0
    requires 1 <= m < U64 && wlen < U64 && Words(a[..])
    requires wlen2 == ModMul(wlen, wlen, m) && wlen3 == ModMul(wlen2, wlen, m)
    modifies a
    ensures a[..] == Stage4(old(a[..]), len, Powers(wlen, len, m), wlen, m)
  {
    var n := a.Length;
    ghost var s := a[..];
    ghost var tw := Powers(wlen, len, m);
    var i: nat := 0;
    while i < n
      invariant i <= n && i % len == 0 && Words(a[..])
      invariant a[..i] == Stage4(s[..i], len, tw, wlen, m) && a[i..] == s[i..]
    {
      BlockFits(i, n, len);
      ghost var prev := a[..];
      RunBlock(a, i, len, m, wlen, wlen2, wlen3);
      StageStep(s, prev, a[..], i, len, tw, wlen, m);
      i := i + len;
    }
    assert a[..] == a[..n] && s == s[..n];
  }

  /** Running the block at `i` extends the finished part of the stage by
      one block. */
  lemma StageStep(s: seq<nat>, prev: seq<nat>, cur: seq<nat>, i: nat, len: nat, tw: seq<nat>, wlen: nat, m: nat)
    requires len >= 4 && len % 4 == 0 && i % len == 0 && i + len <= |s| && Words(s)
    requires |tw| == len && Words(tw) && 1 <= m < U64 && wlen < U64
    requires |prev| == |s| && Words(prev) && Words(s[..i])
    requires prev[..i] == Stage4(s[..i], len, tw, wlen, m) && prev[i..] == s[i..]
    requires |cur| == |prev| && cur[..i] == prev[..i] && cur[i + len..] == prev[i + len..]
    requires cur[i..i + len] == Block4(prev[i..i + len], tw, wlen, m)
    ensures cur[..i + len] == Stage4(s[..i + len], len, tw, wlen, m) && cur[i + len..] == s[i + len..]
  {
    assert Words(s[..i]) && Words(s[i..i + len]);
    assert prev[i..i + len] == s[i..i + len];
    Stage4Snoc(s[..i], s[i..i + len], len, tw, wlen, m);
    assert s[..i] + s[i..i + len] == s[..i + len];
    assert cur[..i + len] == cur[..i] + cur[i..i + len];
  }

  /** Entries of a block that the first `j` butterflies have written. */
  predicate Touched(o: nat, j: nat, q: nat)
  {
    o < j || q <= o < q + j || 2 * q <= o < 2 * q + j || 3 * q <= o < 3 * q + j
  }

  /** The block at `i` of `cur` holds the entries of `goal` at the columns
      the first `j` butterflies have written, and those of `t` elsewhere. */
  predicate BlockPartly(cur: seq<nat>, i: nat, t: seq<nat>, goal: seq<nat>, j: nat)
    requires |goal| == |t| && i + |t| <= |cur|
  {
    forall x :: i <= x < i + |t| ==>
      cur[x] == if Touched(x - i, j, |t| / 4) then goal[x - i] else t[x - i]
  }

  /** The butterflies of the block at `i`: column `j` reads and writes the
      entries `i + j + g * len/4`, with twiddle accumulators that step by
      `wlen`, `wlen^2`, `wlen^3`. */
  method RunBlock(a: array<nat>, i: nat, len: nat, m: nat, wlen: nat, wlen2: nat, wlen3: nat)
    requires len >= 4 && len % 4 == 0 && i + len <= a.Length
    requires 1 <= m < U64 && wlen < U64 && Words(a[..])
    requires wlen2 == ModMul(wlen, wlen, m) && wlen3 == ModMul(wlen2, wlen, m)
    modifies a
    ensures Words(a[..])
    ensures a[..i] == old(a[..i]) && a[i + len..] == old(a[i + len..])
    ensures a[i..i + len] == Block4(old(a[i..i + len]), Powers(wlen, len, m), wlen, m)
  {
    ghost var s := a[..];
    ghost var t := a[i..i + len];
    ghost var tw := Powers(wlen, len, m);
    ghost var goal := Block4(t, tw, wlen, m);
    var q := len / 4;
    assert |t| == len && |t| / 4 == q && 4 * q == len;
    StageTwiddles(wlen, len, m, wlen2, wlen3);
    var w1: nat, w2: nat, w3: nat := 1, 1, 1;
    var j: nat := 0;
    BlockStart(s, i, t, goal);
    while j < q
      invariant j <= q && Words(a[..])
      invariant Accumulators(tw, j, w1, w2, w3, m)
      invariant Outside(a[..], s, i, len)
      invariant BlockPartly(a[..], i, t, goal, j)
    {
      BlockColumn(a, i, q, j, m, w1, w2, w3, wlen, s, t, tw, goal);
      AccumulatorsStep(wlen, len, m, j, w1, w2, w3, wlen2, wlen3);
      w1 := ModMul(w1, wlen, m);
      w2 := ModMul(w2, wlen2, m);
      w3 := ModMul(w3, wlen3, m);
      j := j + 1;
    }
    BlockEnd(a[..], s, i, t, goal);
  }

  /** One pass of the inner loop of `ntt_forward_radix4`: the butterfly on
      column `j` of the block at `i` extends its written part by that column. */
  method BlockColumn(a: array<nat>, i: nat, q: nat, j: nat, m: nat, w1: nat, w2: nat, w3: nat, wlen: nat,
                     ghost s: seq<nat>, ghost t: seq<nat>, ghost tw: seq<nat>, ghost goal: seq<nat>)
    requires |t| == 4 * q && |t| % 4 == 0 && Words(t) && j < q && Words(a[..])
    requires |tw| == |t| && Words(tw) && 1 <= m < U64 && wlen < U64 && goal == Block4(t, tw, wlen, m)
    requires Accumulators(tw, j, w1, w2, w3, m)
    requires Outside(a[..], s, i, |t|) && BlockPartly(a[..], i, t, goal, j)
    modifies a
    ensures Words(a[..]) && Outside(a[..], s, i, |t|) && BlockPartly(a[..], i, t, goal, j + 1)
  {
    ghost var prev := a[..];
    Butterfly(a, i + j, q, m, w1, w2, w3, wlen);
    ColumnStep(prev, a[..], s, i, t, tw, wlen, m, goal, q, j, w1, w2, w3);
  }

  /** Entries outside the block `[i, i + len)` are those of `s`. */
  predicate Outside(cur: seq<nat>, s: seq<nat>, i: nat, len: nat)
  {
    |cur| == |s| && i + len <= |s| && cur[..i] == s[..i] && cur[i + len..] == s[i + len..]
  }

  /** The body of the inner loop of `ntt_forward_radix4`: one radix-4
      butterfly on the entries `c`, `c + q`, `c + 2q`, `c + 3q`. */
  method Butterfly(a: array<nat>, c: nat, q: nat, m: nat, w1: nat, w2: nat, w3: nat, wlen: nat)
    requires c + 3 * q < a.Length && Words(a[..])
    requires 1 <= m < U64 && w1 < U64 && w2 < U64 && w3 < U64 && wlen < U64
    modifies a
    ensures Words(a[..]) && a[..] == ButterflyApplied(old(a[..]), c, q, m, w1, w2, w3, wlen)
  {
    ButterflyKernel(a[c], a[c + q], a[c + 2 * q], a[c + 3 * q], w1, w2, w3, wlen, m);
    var a0 := a[c];
    var a1 := ModMul(a[c + q], w1, m);
    var a2 := ModMul(a[c + 2 * q], w2, m);
    var a3 := ModMul(a[c + 3 * q], w3, m);
    var t0 := ModAdd(a0, a2, m);
    var t1 := ModAdd(a1, a3, m);
    var t2 := ModSub(a0, a2, m);
    var t3 := ModSub(a1, a3, m);
    a[c] := ModAdd(t0, t1, m);
    a[c + q] := ModAdd(t2, ModMul(wlen, t3, m), m);
    a[c + 2 * q] := ModSub(t0, t1, m);
    a[c + 3 * q] := ModSub(t2, ModMul(wlen, t3, m), m);
  }

  /** `x` with the butterfly on the entries `c`, `c + q`, `c + 2q`, `c + 3q`
      (twiddled by `w1`, `w2`, `w3`) written back in place. */
  function ButterflyApplied(x: seq<nat>, c: nat, q: nat, m: nat, w1: nat, w2: nat, w3: nat, wlen: nat): (r: seq<nat>)
    requires c + 3 * q < |x| && m >= 1
    ensures |r| == |x|
  {
    var out := ButterflyOut(x[c], x[c + q] * w1, x[c + 2 * q] * w2, x[c + 3 * q] * w3, wlen, m);
    x[c := out[0]][c + q := out[1]][c + 2 * q := out[2]][c + 3 * q := out[3]]
  }

  lemma BlockStart(s: seq<nat>, i: nat, t: seq<nat>, goal: seq<nat>)
    requires |t| % 4 == 0 && i + |t| <= |s| && t == s[i..i + |t|] && |goal| == |t|
    ensures Outside(s, s, i, |t|) && BlockPartly(s, i, t, goal, 0)
  {
  }

  lemma BlockEnd(cur: seq<nat>, s: seq<nat>, i: nat, t: seq<nat>, goal: seq<nat>)
    requires |t| % 4 == 0 && i + |t| <= |s| && |goal| == |t|
    requires Outside(cur, s, i, |t|) && BlockPartly(cur, i, t, goal, |t| / 4)
    ensures cur[i..i + |t|] == goal
  {
    var q := |t| / 4;
    forall o | 0 <= o < |t|
      ensures cur[i..i + |t|][o] == goal[o]
    {
      assert cur[i..i + |t|][o] == cur[i + o];
      assert Touched(o, q, q);
    }
  }

  /** Before butterfly `j`, its column still holds the block's inputs. */
  lemma ColumnInputs(cur: seq<nat>, i: nat, t: seq<nat>, goal: seq<nat>, q: nat, j: nat)
    requires |t| == 4 * q && i + |t| <= |cur| && |goal| == |t| && j < q
    requires BlockPartly(cur, i, t, goal, j)
    ensures cur[i + j] == t[j] && cur[i + j + q] == t[j + q] && cur[i + j + 2 * q] == t[j + 2 * q] && cur[i + j + 3 * q] == t[j + 3 * q]
  {
    assert !Touched(j, j, q) && !Touched(j + q, j, q) && !Touched(j + 2 * q, j, q) && !Touched(j + 3 * q, j, q);
  }

  /** Butterfly `j` extends the written part of the block by its column. */
  lemma BlockStep(prev: seq<nat>, cur: seq<nat>, s: seq<nat>, i: nat, t: seq<nat>, goal: seq<nat>, q: nat, j: nat, out: seq<nat>)
    requires |t| == 4 * q && |goal| == |t| && j < q && |out| == 4
    requires Outside(prev, s, i, |t|) && BlockPartly(prev, i, t, goal, j)
    requires
      goal[j] == out[0] && goal[j + q] == out[1] && goal[j + 2 * q] == out[2] && goal[j + 3 * q] == out[3] &&
      cur == prev[i + j := out[0]][i + j + q := out[1]][i + j + 2 * q := out[2]][i + j + 3 * q := out[3]]
    ensures Outside(cur, s, i, |t|) && BlockPartly(cur, i, t, goal, j + 1)
  {
  }

  /** Butterfly `j`, with twiddle accumulators congruent to the table's
      entries, writes the block's outputs into its column. */
  lemma ColumnStep(prev: seq<nat>, cur: seq<nat>, s: seq<nat>, i: nat, t: seq<nat>, tw: seq<nat>, wlen: nat, m: nat,
                   goal: seq<nat>, q: nat, j: nat, w1: nat, w2: nat, w3: nat)
    requires |t| == 4 * q && |t| % 4 == 0 && Words(t) && j < q
    requires |tw| == |t| && Words(tw) && 1 <= m < U64 && wlen < U64 && goal == Block4(t, tw, wlen, m)
    requires Accumulators(tw, j, w1, w2, w3, m)
    requires Outside(prev, s, i, |t|) && BlockPartly(prev, i, t, goal, j)
    requires i + |t| <= |prev| && cur == ButterflyApplied(prev, i + j, q, m, w1, w2, w3, wlen)
    ensures Outside(cur, s, i, |t|) && BlockPartly(cur, i, t, goal, j + 1)
  {
    ColumnInputs(prev, i, t, goal, q, j);
    Column4(t, tw, wlen, m, q, j, w1, w2, w3);
    var out := ButterflyOut(prev[i + j], prev[i + j + q] * w1, prev[i + j + 2 * q] * w2, prev[i + j + 3 * q] * w3, wlen, m);
    assert out == ButterflyOut(t[j], t[j + q] * w1, t[j + 2 * q] * w2, t[j + 3 * q] * w3, wlen, m);
    BlockStep(prev, cur, s, i, t, goal, q, j, out);
  }

  /** The butterfly on column `j`, computed with twiddle accumulators
      congruent to `tw[j]`, `tw[2j]`, `tw[3j]`, gives exactly the block's
      outputs at its four positions. */
  lemma Column4(t: seq<nat>, tw: seq<nat>, wlen: nat, m: nat, q: nat, j: nat, w1: nat, w2: nat, w3: nat)
    requires |t| == 4 * q && |t| % 4 == 0 && Words(t) && j < q
    requires |tw| == |t| && Words(tw) && 1 <= m < U64 && wlen < U64
    requires w1 % m == tw[j] % m && w2 % m == tw[2 * j] % m && w3 % m == tw[3 * j] % m
    ensures var out := ButterflyOut(t[j], t[j + q] * w1, t[j + 2 * q] * w2, t[j + 3 * q] * w3, wlen, m);
      var goal := Block4(t, tw, wlen, m);
      goal[j] == out[0] && goal[j + q] == out[1] && goal[j + 2 * q] == out[2] && goal[j + 3 * q] == out[3]
  {
    CongMul(t[j + q], t[j + q], w1, tw[j], m);
    CongMul(t[j + 2 * q], t[j + 2 * q], w2, tw[2 * j], m);
    CongMul(t[j + 3 * q], t[j + 3 * q], w3, tw[3 * j], m);
    ButterflyCong(t[j], t[j + q] * w1, t[j + 2 * q] * w2, t[j + 3 * q] * w3,
                  t[j + q] * tw[j], t[j + 2 * q] * tw[2 * j], t[j + 3 * q] * tw[3 * j], wlen, m);
    ColumnEntry(t, tw, wlen, m, q, j, 0, j);
    ColumnEntry(t, tw, wlen, m, q, j, 1, j + q);
    ColumnEntry(t, tw, wlen, m, q, j, 2, j + 2 * q);
    ColumnEntry(t, tw, wlen, m, q, j, 3, j + 3 * q);
  }

  /** Position `o` of a block, in row `g` of column `j`, holds output `g` of
      that column's butterfly. */
  lemma ColumnEntry(t: seq<nat>, tw: seq<nat>, wlen: nat, m: nat, q: nat, j: nat, g: nat, o: nat)
    requires |t| == 4 * q && |t| % 4 == 0 && Words(t) && j < q && g < 4 && o < |t| && Column(o, q) == (g, j)
    requires |tw| == |t| && Words(tw) && 1 <= m < U64 && wlen < U64
    ensures Block4(t, tw, wlen, m)[o]
      == ButterflyOut(t[j], t[j + q] * tw[j], t[j + 2 * q] * tw[2 * j], t[j + 3 * q] * tw[3 * j], wlen, m)[g]
  {
    Block4At(t, tw, wlen, m, o);
  }
}
