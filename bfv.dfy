/**
 * The homomorphic operators of the BFV scheme (src/fhe/bfv.rs). A
 * ciphertext is the pair of coefficient vectors `(c0, c1)` modulo the
 * cipher modulus `q`, decrypted coefficient by coefficient as the phase
 * `c1 - c0 * s` for a secret key `s`. Both operators go over the first
 * `n` coefficients, `n` being the length of the first ciphertext's `c0`,
 * with the library's `mod_add` and `mod_mul`.
 */
module Bfv {
  import opened NumberTheory
  import opened Modular

  datatype Ciphertext = Ciphertext(c0: seq<nat>, c1: seq<nat>)

  /** The three components of a product before relinearisation. */
  datatype Tensor = Tensor(d0: seq<nat>, d1: seq<nat>, d2: seq<nat>)

  /** Two ciphertexts an operator can index: every vector holds `u64`
      values and none is shorter than `ct1.c0` (a shorter one panics). */
  predicate Operands(ct1: Ciphertext, ct2: Ciphertext)
  {
    var n := |ct1.c0|;
    Words(ct1.c0) && Words(ct1.c1) && Words(ct2.c0) && Words(ct2.c1) &&
    |ct1.c1| >= n && |ct2.c0| >= n && |ct2.c1| >= n
  }

  // ---------------------------------------------------------------------
  // Coefficient-wise vectors

  /** The first `n` coefficients of `x + y`, each by `mod_add`. */
  function SumPoly(x: seq<nat>, y: seq<nat>, n: nat, q: nat): (r: seq<nat>)
    requires q < U64 && n <= |x| && n <= |y| && Words(x) && Words(y)
    ensures |r| == n && Words(r)
  {
    seq(n, i requires 0 <= i < n => ModAdd(x[i], y[i], q))
  }

  /** The first `n` coefficients of `x * y`, each by `mod_mul`. */
  function MulPoly(x: seq<nat>, y: seq<nat>, n: nat, q: nat): (r: seq<nat>)
    requires q < U64 && n <= |x| && n <= |y| && Words(x) && Words(y)
    ensures |r| == n && Words(r)
  {
    seq(n, i requires 0 <= i < n => ModMul(x[i], y[i], q))
  }

  /** Every coefficient of `x` times `c`, by `mod_mul`. */
  function ScalePoly(x: seq<nat>, c: nat, q: nat): (r: seq<nat>)
    requires q < U64 && c < U64 && Words(x)
    ensures |r| == |x| && Words(r)
  {
    seq(|x|, i requires 0 <= i < |x| => ModMul(x[i], c, q))
  }

  // ---------------------------------------------------------------------
  // homomorphic_add

  /** What `homomorphic_add` returns. */
  function Sum(ct1: Ciphertext, ct2: Ciphertext, q: nat): (r: Ciphertext)
    requires Operands(ct1, ct2) && q < U64
    ensures |r.c0| == |r.c1| == |ct1.c0|
  {
    var n := |ct1.c0|;
    Ciphertext(SumPoly(ct1.c0, ct2.c0, n, q), SumPoly(ct1.c1, ct2.c1, n, q))
  }

  /** `homomorphic_add`: two zeroed vectors of length `n` filled index by
      index. */
  method HomomorphicAdd(ct1: Ciphertext, ct2: Ciphertext, q: nat) returns (r: Ciphertext)
    requires Operands(ct1, ct2) && q < U64
    ensures r == Sum(ct1, ct2, q)
  {
    var n := |ct1.c0|;
    var c0 := new nat[n](_ => 0);
    var c1 := new nat[n](_ => 0);
    for i := 0 to n
      invariant forall x :: 0 <= x < i ==> c0[x] == ModAdd(ct1.c0[x], ct2.c0[x], q)
      invariant forall x :: 0 <= x < i ==> c1[x] == ModAdd(ct1.c1[x], ct2.c1[x], q)
    {
      c0[i] := ModAdd(ct1.c0[i], ct2.c0[i], q);
      c1[i] := ModAdd(ct1.c1[i], ct2.c1[i], q);
    }
    r := Ciphertext(c0[..], c1[..]);
  }

  /** The phase `c1 - c0 * key` of coefficient `i`, reduced modulo `q`:
      what decryption scales down to the plaintext. */
  function Phase(ct: Ciphertext, key: int, i: nat, q: nat): (r: nat)
    requires i < |ct.c0| && i < |ct.c1| && q >= 1
    ensures r < q
  {
    Residue(ct.c1[i] - ct.c0[i] * key, q)
  }

  /** The sum decrypts to the sum of the phases: addition is homomorphic
      for every key. */
  lemma AddPhase(ct1: Ciphertext, ct2: Ciphertext, q: nat, key: int, i: nat)
    requires Operands(ct1, ct2) && 1 <= q < U64 && i < |ct1.c0|
    ensures Phase(Sum(ct1, ct2, q), key, i, q) == Residue(Phase(ct1, key, i, q) + Phase(ct2, key, i, q), q)
  {
    var r := Sum(ct1, ct2, q);
    var a0: int, a1: int, b0: int, b1: int := ct1.c0[i], ct1.c1[i], ct2.c0[i], ct2.c1[i];
    assert r.c0[i] == ModAdd(ct1.c0[i], ct2.c0[i], q) && r.c1[i] == ModAdd(ct1.c1[i], ct2.c1[i], q);
    var r0: int, r1: int := r.c0[i], r.c1[i];
    PhaseOfSum(a0, a1, b0, b1, r0, r1, key, q);
    ResidueMod(r1 - r0 * key, q);
    ResidueMod(a1 - a0 * key, q);
    ResidueMod(b1 - b0 * key, q);
    var p1, p2 := Phase(ct1, key, i, q), Phase(ct2, key, i, q);
    assert p1 == (a1 - a0 * key) % q && p2 == (b1 - b0 * key) % q;
    ResidueMod(p1 + p2, q);
    assert Phase(r, key, i, q) == (r1 - r0 * key) % q;
  }

  /** `AddPhase` for one coefficient, in `%`. */
  lemma PhaseOfSum(a0: int, a1: int, b0: int, b1: int, r0: int, r1: int, k: int, q: nat)
    requires q >= 1 && r0 == (a0 + b0) % q && r1 == (a1 + b1) % q
    ensures (r1 - r0 * k) % q == ((a1 - a0 * k) % q + (b1 - b0 * k) % q) % q
  {
    ModOfMod(a0 + b0, q);
    ModOfMod(a1 + b1, q);
    CongMul(r0, a0 + b0, k, k, q);
    CongSub(r1, a1 + b1, r0 * k, (a0 + b0) * k, q);
    assert (a1 + b1) - (a0 + b0) * k == (a1 - a0 * k) + (b1 - b0 * k);
    AddMod(a1 - a0 * k, b1 - b0 * k, q);
  }

  /** Addition does not depend on the order of the ciphertexts (when both
      orders index the same `n` coefficients). */
  lemma AddCommutes(ct1: Ciphertext, ct2: Ciphertext, q: nat)
    requires Operands(ct1, ct2) && Operands(ct2, ct1) && q < U64
    ensures Sum(ct1, ct2, q) == Sum(ct2, ct1, q)
  {
    var n := |ct1.c0|;
    assert SumPoly(ct1.c0, ct2.c0, n, q) == SumPoly(ct2.c0, ct1.c0, n, q);
    assert SumPoly(ct1.c1, ct2.c1, n, q) == SumPoly(ct2.c1, ct1.c1, n, q);
  }

  /** The ciphertext of `n` zero coefficients. */
  function ZeroCiphertext(n: nat): (r: Ciphertext)
    ensures |r.c0| == |r.c1| == n && Words(r.c0) && Words(r.c1)
  {
    Ciphertext(seq(n, _ => 0), seq(n, _ => 0))
  }

  /** Every coefficient of `x` reduced modulo `q`. */
  function Reduced(x: seq<nat>, q: nat): (r: seq<nat>)
    requires q >= 1
    ensures |r| == |x|
  {
    seq(|x|, i requires 0 <= i < |x| => x[i] % q)
  }

  /** Modulo 11, `([1, 2], [3, 4]) + ([5, 6], [7, 8])` is `([6, 8], [10, 1])`:
      the last slot wraps, since 4 + 8 = 12 is 1 modulo 11. */
  lemma AddExample()
    ensures Operands(Ciphertext([1, 2], [3, 4]), Ciphertext([5, 6], [7, 8]))
    ensures Sum(Ciphertext([1, 2], [3, 4]), Ciphertext([5, 6], [7, 8]), 11) == Ciphertext([6, 8], [10, 1])
  {
    var r := Sum(Ciphertext([1, 2], [3, 4]), Ciphertext([5, 6], [7, 8]), 11);
    assert r.c0[0] == 6 && r.c0[1] == 8 && r.c1[0] == 10;
    DivModUnique(12, 11, 1, 1);
    assert r.c1[1] == 1;
  }

  /** Adding the zero ciphertext, on either side, gives the other one's
      first `n` coefficients reduced modulo `q` (unchanged for the
      modulus 0, where the sum wraps modulo 2^64). */
  lemma AddZero(ct: Ciphertext, q: nat)
    requires Words(ct.c0) && Words(ct.c1) && |ct.c1| >= |ct.c0| && q < U64
    ensures var n := |ct.c0|; var z := ZeroCiphertext(n);
      Operands(ct, z) && Operands(z, ct) && Sum(ct, z, q) == Sum(z, ct, q) &&
      (q >= 1 ==> Sum(ct, z, q) == Ciphertext(Reduced(ct.c0, q), Reduced(ct.c1[..n], q))) &&
      (q == 0 ==> Sum(ct, z, q) == Ciphertext(ct.c0, ct.c1[..n]))
  {
    var n := |ct.c0|;
    var z := ZeroCiphertext(n);
    AddCommutes(ct, z, q);
    if q >= 1 {
      assert SumPoly(ct.c0, z.c0, n, q) == Reduced(ct.c0, q);
      assert SumPoly(ct.c1, z.c1, n, q) == Reduced(ct.c1[..n], q);
    } else {
      assert SumPoly(ct.c0, z.c0, n, q) == ct.c0;
      assert SumPoly(ct.c1, z.c1, n, q) == ct.c1[..n];
    }
  }

  // ---------------------------------------------------------------------
  // homomorphic_mul_simple

  /** `Δ⁻¹`: `mod_inv(q / t, q)`, the inverse of the scaling factor `Δ`. */
  function DeltaInverse(q: nat, t: nat): (r: nat)
    requires 1 <= t && q < U64
    ensures r < U64
  {
    FermatInverse(q / t, q)
  }

  /** What `homomorphic_mul_simple` returns: the coefficient-wise tensor
      product of the ciphertexts, every component multiplied by `Δ⁻¹`. */
  function TensorProduct(ct1: Ciphertext, ct2: Ciphertext, q: nat, t: nat): (r: Tensor)
    requires Operands(ct1, ct2) && q < U64 && 1 <= t
    ensures |r.d0| == |r.d1| == |r.d2| == |ct1.c0|
  {
    var n := |ct1.c0|;
    var inv := DeltaInverse(q, t);
    Tensor(ScalePoly(MulPoly(ct1.c0, ct2.c0, n, q), inv, q),
           ScalePoly(SumPoly(MulPoly(ct1.c0, ct2.c1, n, q), MulPoly(ct1.c1, ct2.c0, n, q), n, q), inv, q),
           ScalePoly(MulPoly(ct1.c1, ct2.c1, n, q), inv, q))
  }

  /** `homomorphic_mul_simple`: `Δ⁻¹` computed once, then three zeroed
      vectors filled index by index. A plain modulus of 0 divides by zero. */
  method HomomorphicMulSimple(ct1: Ciphertext, ct2: Ciphertext, q: nat, t: nat) returns (r: Tensor)
    requires Operands(ct1, ct2) && q < U64 && 1 <= t < U64
    ensures r == TensorProduct(ct1, ct2, q, t)
  {
    var n := |ct1.c0|;
    QuotDiv(q, t);
    var deltaInv := ModInv(q / t, q);
    var c0 := new nat[n](_ => 0);
    var c1 := new nat[n](_ => 0);
    var c2 := new nat[n](_ => 0);
    ghost var goal := TensorProduct(ct1, ct2, q, t);
    for i := 0 to n
      invariant c0[..i] == goal.d0[..i] && c1[..i] == goal.d1[..i] && c2[..i] == goal.d2[..i]
    {
      var term1 := ModMul(ct1.c0[i], ct2.c0[i], q);
      var term2 := ModMul(ct1.c0[i], ct2.c1[i], q);
      var term3 := ModMul(ct1.c1[i], ct2.c0[i], q);
      var term4 := ModMul(ct1.c1[i], ct2.c1[i], q);
      ghost var p0, p1, p2 := c0[..], c1[..], c2[..];
      c0[i] := ModMul(term1, deltaInv, q);
      c1[i] := ModMul(ModAdd(term2, term3, q), deltaInv, q);
      c2[i] := ModMul(term4, deltaInv, q);
      PrefixGrows(p0, c0[..], goal.d0, i);
      PrefixGrows(p1, c1[..], goal.d1, i);
      PrefixGrows(p2, c2[..], goal.d2, i);
    }
    assert c0[..] == c0[..n] && c1[..] == c1[..n] && c2[..] == c2[..n];
    r := Tensor(c0[..], c1[..], c2[..]);
  }

  /** The product does not depend on the order of the ciphertexts. */
  lemma MulCommutes(ct1: Ciphertext, ct2: Ciphertext, q: nat, t: nat)
    requires Operands(ct1, ct2) && Operands(ct2, ct1) && q < U64 && 1 <= t
    ensures TensorProduct(ct1, ct2, q, t) == TensorProduct(ct2, ct1, q, t)
  {
    var n := |ct1.c0|;
    var inv := DeltaInverse(q, t);
    assert MulPoly(ct1.c0, ct2.c0, n, q) == MulPoly(ct2.c0, ct1.c0, n, q);
    assert MulPoly(ct1.c1, ct2.c1, n, q) == MulPoly(ct2.c1, ct1.c1, n, q);
    assert MulPoly(ct1.c0, ct2.c1, n, q) == MulPoly(ct2.c1, ct1.c0, n, q);
    assert MulPoly(ct1.c1, ct2.c0, n, q) == MulPoly(ct2.c0, ct1.c1, n, q);
    assert SumPoly(MulPoly(ct1.c0, ct2.c1, n, q), MulPoly(ct1.c1, ct2.c0, n, q), n, q)
        == SumPoly(MulPoly(ct2.c0, ct1.c1, n, q), MulPoly(ct2.c1, ct1.c0, n, q), n, q);
  }

  /** Whenever `mod_inv(q / t, q)` returns 0, every coefficient of the
      product is 0. */
  lemma MulDegenerate(ct1: Ciphertext, ct2: Ciphertext, q: nat, t: nat)
    requires Operands(ct1, ct2) && q < U64 && 1 <= t && DeltaInverse(q, t) == 0
    ensures var r := TensorProduct(ct1, ct2, q, t); var z := seq(|ct1.c0|, _ => 0);
      r.d0 == z && r.d1 == z && r.d2 == z
  {
  }

  /** `Δ⁻¹` is 0 for the moduli 0 and 1, and when `Δ` is 0 or `q` modulo
      `q`: a plain modulus of 1, or one above `q`. */
  lemma DegenerateDelta(q: nat, t: nat)
    requires q < U64 && 1 <= t && (q < 2 || t == 1 || t > q)
    ensures DeltaInverse(q, t) == 0
  {
    if q >= 2 {
      if t == 1 {
        DivModUnique(q, 1, q, 0);
      } else {
        DivModUnique(q, t, 0, q);
      }
      assert (q / t) % q == 0;
    }
  }

  /** A composite ciphertext modulus: `q = 4`, `t = 2` gives `Δ = 2`, and
      `mod_inv(2, 4) = 2^2 mod 4 = 0`, so the product vanishes too. */
  lemma DegenerateComposite()
    ensures DeltaInverse(4, 2) == 0
  {
    DivModUnique(4, 2, 2, 0);
    assert Pow(2, 2) == 4;
    DivModUnique(4, 4, 1, 0);
  }

  /** For a prime `q` and `1 < t <= q`, `Δ` is invertible and multiplying
      each component back by `Δ` recovers the plain tensor product. */
  lemma MulUnscale(ct1: Ciphertext, ct2: Ciphertext, q: nat, t: nat, i: nat)
    requires Operands(ct1, ct2) && q < U64 && IsPrime(q) && 1 < t <= q && i < |ct1.c0|
    ensures var r := TensorProduct(ct1, ct2, q, t); var x0, x1, y0, y1 := ct1.c0[i], ct1.c1[i], ct2.c0[i], ct2.c1[i];
      (r.d0[i] * (q / t)) % q == (x0 * y0) % q &&
      (r.d1[i] * (q / t)) % q == (x0 * y1 + x1 * y0) % q &&
      (r.d2[i] * (q / t)) % q == (x1 * y1) % q
  {
    var delta := q / t;
    DeltaRange(q, t);
    FermatInverseCorrect(delta, q);
    var inv := DeltaInverse(q, t);
    var r := TensorProduct(ct1, ct2, q, t);
    var x0: int, x1: int, y0: int, y1: int := ct1.c0[i], ct1.c1[i], ct2.c0[i], ct2.c1[i];
    var m01, m10 := ModMul(ct1.c0[i], ct2.c1[i], q), ModMul(ct1.c1[i], ct2.c0[i], q);
    var m00, m11 := ModMul(ct1.c0[i], ct2.c0[i], q), ModMul(ct1.c1[i], ct2.c1[i], q);
    assert r.d0[i] == ModMul(m00, inv, q);
    assert r.d1[i] == ModMul(ModAdd(m01, m10, q), inv, q);
    assert r.d2[i] == ModMul(m11, inv, q);
    SumCong(x0 * y1, x1 * y0, m01, m10, q);
    ModOfMod(x0 * y0, q);
    ModOfMod(x1 * y1, q);
    UnscaleEntry(x0 * y0, m00, inv, delta, q);
    UnscaleEntry(x0 * y1 + x1 * y0, ModAdd(m01, m10, q), inv, delta, q);
    UnscaleEntry(x1 * y1, m11, inv, delta, q);
  }

  /** `mod_mul(v, Δ⁻¹)` for a `v` congruent to `x`, multiplied back by `Δ`,
      is congruent to `x`. */
  lemma UnscaleEntry(x: int, v: nat, inv: nat, delta: int, q: nat)
    requires 2 <= q < U64 && v < U64 && inv < U64 && v % q == x % q && (delta * inv) % q == 1
    ensures (ModMul(v, inv, q) * delta) % q == x % q
  {
    ModOfMod(v * inv, q);
    ModOfMod(x, q);
    CongMul(v, x % q, inv, inv, q);
    Unscale(x, ModMul(v, inv, q), inv, delta, q);
  }

  /** `1 <= q / t < q` when `1 < t <= q`. */
  lemma DeltaRange(q: nat, t: nat)
    requires 1 < t <= q
    ensures 1 <= q / t < q && (q / t) % q == q / t
  {
    QuotDiv(q, t);
    var d := q / t;
    assert q == t * d + q % t;
    DivModUnique(d, q, 0, d);
  }

  /** A value `v` congruent to `x * inv`, with `inv` the inverse of
      `delta`, gives back `x` once multiplied by `delta`. */
  lemma Unscale(x: int, v: int, inv: int, delta: int, q: nat)
    requires q >= 1 && v % q == ((x % q) * inv) % q && (delta * inv) % q == 1
    ensures (v * delta) % q == x % q
  {
    MulModLeft(x, inv, q);
    CongMul(v, x * inv, delta, delta, q);
    assert x * inv * delta == x * (delta * inv);
    MulModRight(x, delta * inv, q);
    MulModRight(x, 1, q);
  }

  /** The product decrypts to the product of the phases, scaled by `Δ⁻¹`:
      `d2 - d1 * s + d0 * s^2 == Δ⁻¹ * (x1 - x0 * s) * (y1 - y0 * s)`
      modulo `q`, coefficient by coefficient. */
  lemma MulPhase(ct1: Ciphertext, ct2: Ciphertext, q: nat, t: nat, key: int, i: nat)
    requires Operands(ct1, ct2) && 1 <= q < U64 && 1 <= t && i < |ct1.c0|
    ensures var r := TensorProduct(ct1, ct2, q, t);
      Residue(r.d2[i] - r.d1[i] * key + r.d0[i] * (key * key), q)
        == Residue(DeltaInverse(q, t) * Phase(ct1, key, i, q) * Phase(ct2, key, i, q), q)
  {
    var r := TensorProduct(ct1, ct2, q, t);
    var inv := DeltaInverse(q, t);
    var x0: int, x1: int, y0: int, y1: int := ct1.c0[i], ct1.c1[i], ct2.c0[i], ct2.c1[i];
    var m00, m01 := ModMul(ct1.c0[i], ct2.c0[i], q), ModMul(ct1.c0[i], ct2.c1[i], q);
    var m10, m11 := ModMul(ct1.c1[i], ct2.c0[i], q), ModMul(ct1.c1[i], ct2.c1[i], q);
    assert r.d0[i] == ModMul(m00, inv, q);
    assert r.d1[i] == ModMul(ModAdd(m01, m10, q), inv, q);
    assert r.d2[i] == ModMul(m11, inv, q);
    if q >= 2 {
      ModOfMod(x0 * y0, q);
      ModOfMod(x1 * y1, q);
      SumCong(x0 * y1, x1 * y0, m01, m10, q);
    }
    ScaledCong(x0 * y0, inv, m00, q);
    ScaledCong(x0 * y1 + x1 * y0, inv, ModAdd(m01, m10, q), q);
    ScaledCong(x1 * y1, inv, m11, q);
    TensorPhase(x0, x1, y0, y1, key, inv, r.d0[i], r.d1[i], r.d2[i], q);
    ResidueMod(r.d2[i] - r.d1[i] * key + r.d0[i] * (key * key), q);
    ResidueMod(x1 - x0 * key, q);
    ResidueMod(y1 - y0 * key, q);
    ResidueMod(inv * Phase(ct1, key, i, q) * Phase(ct2, key, i, q), q);
  }

  /** The `mod_add` of two reduced products is congruent to their sum. */
  lemma SumCong(a: int, b: int, ma: nat, mb: nat, q: nat)
    requires 2 <= q < U64 && ma == a % q && mb == b % q
    ensures ModAdd(ma, mb, q) % q == (a + b) % q
  {
    AddMod(a, b, q);
    ModOfMod(ma + mb, q);
  }

  /** `MulPhase` for one coefficient, in `%`: components congruent to the
      scaled tensor terms decrypt to the scaled product of the phases. */
  lemma TensorPhase(x0: int, x1: int, y0: int, y1: int, k: int, c: int, e0: int, e1: int, e2: int, q: nat)
    requires q >= 1
    requires e0 % q == (x0 * y0 * c) % q && e1 % q == ((x0 * y1 + x1 * y0) * c) % q && e2 % q == (x1 * y1 * c) % q
    ensures (e2 - e1 * k + e0 * (k * k)) % q == (c * ((x1 - x0 * k) % q) * ((y1 - y0 * k) % q)) % q
  {
    var a, b, d := x1 * y1, x0 * y1 + x1 * y0, x0 * y0;
    var p1, p2 := x1 - x0 * k, y1 - y0 * k;
    CongTerms(e0, e1, e2, d * c, b * c, a * c, k, k * k, q);
    Expand(x0, x1, y0, y1, k);
    Distribute(a, b, d, c, k);
    PhaseFactors(c, p1, p2, q);
  }

  /** Congruent coefficients give congruent values `e2 - e1 * k + e0 * kk`. */
  lemma CongTerms(e0: int, e1: int, e2: int, f0: int, f1: int, f2: int, k: int, kk: int, q: nat)
    requires q >= 1 && e0 % q == f0 % q && e1 % q == f1 % q && e2 % q == f2 % q
    ensures (e2 - e1 * k + e0 * kk) % q == (f2 - f1 * k + f0 * kk) % q
  {
    CongMul(e0, f0, kk, kk, q);
    CongMul(e1, f1, k, k, q);
    CongSub(e2, f2, e1 * k, f1 * k, q);
    CongAdd(e2 - e1 * k, f2 - f1 * k, e0 * kk, f0 * kk, q);
  }

  /** Reducing the two phases first does not change `c * p1 * p2` modulo `q`. */
  lemma PhaseFactors(c: int, p1: int, p2: int, q: nat)
    requires q >= 1
    ensures (c * (p1 * p2)) % q == (c * (p1 % q) * (p2 % q)) % q
  {
    ModOfMod(p1, q);
    ModOfMod(p2, q);
    CongMul(c, c, p1 % q, p1, q);
    CongMul(c * (p1 % q), c * p1, p2 % q, p2, q);
    assert c * p1 * p2 == c * (p1 * p2);
  }

  /** The product of two phases, expanded. */
  lemma Expand(x0: int, x1: int, y0: int, y1: int, k: int)
    ensures (x1 - x0 * k) * (y1 - y0 * k) == x1 * y1 - (x0 * y1 + x1 * y0) * k + x0 * y0 * (k * k)
  {
    assert (x1 - x0 * k) * (y1 - y0 * k) == x1 * y1 - x1 * (y0 * k) - (x0 * k) * y1 + (x0 * k) * (y0 * k);
    assert (x0 * k) * (y0 * k) == x0 * y0 * (k * k);
  }

  /** Taking a common factor `c` out of the three scaled terms. */
  lemma Distribute(a: int, b: int, d: int, c: int, k: int)
    ensures a * c - b * c * k + d * c * (k * k) == c * (a - b * k + d * (k * k))
  {
  }

  /** A value `v` congruent to `x`, multiplied by `c` with `mod_mul`, is
      congruent to `x * c`. */
  lemma ScaledCong(x: int, c: nat, v: nat, q: nat)
    requires 1 <= q < U64 && v < U64 && c < U64 && (q >= 2 ==> v % q == x % q)
    ensures ModMul(v, c, q) % q == (x * c) % q
  {
    if q >= 2 {
      ModOfMod(v * c, q);
      CongMul(v, x, c, c, q);
    } else {
      DivModUnique(x * c, 1, x * c, 0);
    }
  }
}
