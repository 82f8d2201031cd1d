/**
 * The modular arithmetic kernel (src/modular.rs). Values are `u64` in the
 * source and `nat` below `U64` here; the source's 128-bit intermediates are
 * exact, so they need no modelling. The degenerate moduli keep the source's
 * behaviour: addition and subtraction wrap modulo 2^64 when the modulus is
 * 0, multiplication and exponentiation return 0 for the moduli 0 and 1.
 */
module Modular {
  import opened NumberTheory

  const U64: nat := 0x1_0000_0000_0000_0000
  /** 2^63: the first value a cast to `i64` would turn negative. */
  const I64: nat := 0x8000_0000_0000_0000
  /** 2^128: the range of the `u128` intermediates. */
  const U128: nat := 0x1_0000_0000_0000_0000_0000_0000_0000_0000

  /** Every entry fits a `u64`. */
  predicate Words(s: seq<nat>)
  {
    forall y :: 0 <= y < |s| ==> s[y] < U64
  }

  /** `mod_add`. The shortcuts for a zero residue agree with the general
      128-bit branch, so the result is the reduced sum. */
  function ModAdd(a: nat, b: nat, modulus: nat): (r: nat)
    requires a < U64 && b < U64 && modulus < U64
    ensures r < U64
    ensures modulus == 0 ==> r == (a + b) % U64
    ensures modulus > 0 ==> r == (a + b) % modulus
  {
    if modulus == 0 then
      (a + b) % U64
    else
      var aMod, bMod := a % modulus, b % modulus;
      AddMod(a, b, modulus);
      ModOfMod(a, modulus);
      ModOfMod(b, modulus);
      if aMod == 0 then bMod
      else if bMod == 0 then aMod
      else (aMod + bMod) % modulus
  }

  /** `mod_sub`: the reduced difference in `[0, modulus)`, or the wrapping
      difference when the modulus is 0. */
  function ModSub(a: nat, b: nat, modulus: nat): (r: nat)
    requires a < U64 && b < U64 && modulus < U64
    ensures r < U64
    ensures modulus == 0 ==> r == (a - b) % U64
    ensures modulus > 0 ==> r == (a - b) % modulus
  {
    if modulus == 0 then
      (a - b) % U64
    else
      var aMod, bMod := a % modulus, b % modulus;
      SubMod(a, b, modulus);
      if bMod == 0 then
        DivModUnique(aMod - bMod, modulus, 0, aMod);
        aMod
      else if aMod >= bMod then
        DivModUnique(aMod - bMod, modulus, 0, aMod - bMod);
        aMod - bMod
      else
        DivModUnique(aMod - bMod, modulus, -1, modulus - (bMod - aMod));
        modulus - (bMod - aMod)
  }

  /** `mod_mul`: 0 for the moduli 0 and 1; otherwise the shortcuts for the
      residues 0 and 1 agree with the 128-bit product reduced. */
  function ModMul(a: nat, b: nat, modulus: nat): (r: nat)
    requires a < U64 && b < U64 && modulus < U64
    ensures modulus < 2 ==> r == 0
    ensures modulus >= 2 ==> r == (a * b) % modulus
    ensures r < U64
  {
    if modulus == 0 || modulus == 1 then
      0
    else
      var aMod, bMod := a % modulus, b % modulus;
      MulMod(a, b, modulus);
      ModOfMod(a, modulus);
      ModOfMod(b, modulus);
      if aMod == 0 || bMod == 0 then 0
      else if aMod == 1 then bMod
      else if bMod == 1 then aMod
      else (aMod * bMod) % modulus
  }

  /** `mod_mul` depends on its operands only through their residues. */
  lemma ModMulCongruent(a: nat, b: nat, b2: nat, modulus: nat)
    requires a < U64 && b < U64 && b2 < U64 && 1 <= modulus < U64
    requires b % modulus == b2 % modulus
    ensures ModMul(a, b, modulus) == ModMul(a, b2, modulus)
  {
    if modulus >= 2 {
      MulModRight(a, b, modulus);
      MulModRight(a, b2, modulus);
    }
  }

  /** The kernel's results are the residues of the exact sum, difference and
      product of anything congruent to its operands. */
  lemma AddCong(a: nat, b: nat, x: int, y: int, modulus: nat)
    requires a < U64 && b < U64 && 1 <= modulus < U64
    requires a % modulus == x % modulus && b % modulus == y % modulus
    ensures ModAdd(a, b, modulus) == (x + y) % modulus
  {
    CongAdd(a, x, b, y, modulus);
  }

  lemma SubCong(a: nat, b: nat, x: int, y: int, modulus: nat)
    requires a < U64 && b < U64 && 1 <= modulus < U64
    requires a % modulus == x % modulus && b % modulus == y % modulus
    ensures ModSub(a, b, modulus) == (x - y) % modulus
  {
    CongSub(a, x, b, y, modulus);
  }

  lemma MulCong(a: nat, b: nat, x: int, y: int, modulus: nat)
    requires a < U64 && b < U64 && 1 <= modulus < U64
    requires a % modulus == x % modulus && b % modulus == y % modulus
    ensures ModMul(a, b, modulus) == (x * y) % modulus
  {
    if modulus >= 2 {
      CongMul(a, x, b, y, modulus);
    }
  }

  /** A twiddle accumulator advanced by `mod_mul` keeps tracking a power:
      from `w == base^e` and `step == base^d` (mod m) follows
      `mod_mul(w, step) == base^(e + d)` (mod m). */
  lemma TwiddleAdvance(w: nat, step: nat, base: nat, e: nat, d: nat, modulus: nat)
    requires w < U64 && step < U64 && 1 <= modulus < U64
    requires w % modulus == Pow(base, e) % modulus && step % modulus == Pow(base, d) % modulus
    ensures ModMul(w, step, modulus) % modulus == Pow(base, e + d) % modulus
  {
    if modulus >= 2 {
      MulMod(w, step, modulus);
      MulMod(Pow(base, e), Pow(base, d), modulus);
      PowAdd(base, e, d);
      ModOfMod(w * step, modulus);
    }
  }

  /** What `mod_pow` returns: 0 for a modulus below 2, and 0 whenever the
      base is a multiple of the modulus (even for exponent 0); otherwise
      `base^exp mod modulus`. The residue is taken with `Residue`, which
      proofs unfold only on request; `ExpModValue` gives it as `%`. */
  function ExpMod(base: nat, exp: nat, modulus: nat): nat
  {
    if modulus < 2 || base % modulus == 0 then 0 else Residue(Pow(base, exp), modulus)
  }

  lemma ExpModValue(base: nat, exp: nat, modulus: nat)
    ensures ExpMod(base, exp, modulus)
      == if modulus < 2 || base % modulus == 0 then 0 else Pow(base, exp) % modulus
  {
    if modulus >= 2 {
      ResidueMod(Pow(base, exp), modulus);
    }
  }

  /** `mod_pow`: square-and-multiply. The loop keeps
      `result * base^exp == original_base^original_exp (mod modulus)`. */
  method ModPow(base0: nat, exp0: nat, modulus: nat) returns (r: nat)
    requires base0 < U64 && exp0 < U64 && modulus < U64
    ensures r == ExpMod(base0, exp0, modulus)
    ensures modulus >= 2 ==> r < modulus
  {
    if modulus == 0 {
      return 0;
    }
    if modulus == 1 {
      return 0;
    }
    var base: nat := base0 % modulus;
    if base == 0 {
      return 0;
    }
    if exp0 == 0 {
      return 1 % modulus;
    }
    var result: nat, exp: nat := 1, exp0;
    PowModBase(base0, exp0, modulus);
    while exp > 0
      invariant result < modulus && base < modulus && exp < U64
      invariant (result * Pow(base, exp)) % modulus == Pow(base0, exp0) % modulus
    {
      PowLoopStep(result, base, exp, modulus);
      if exp % 2 == 1 {
        result := ModMul(result, base, modulus);
      }
      base := ModMul(base, base, modulus);
      exp := exp / 2;
    }
    assert Pow(base, 0) == 1;
    DivModUnique(result, modulus, 0, result);
    ExpModValue(base0, exp0, modulus);
    return result;
  }

  /** One round of square-and-multiply keeps
      `result * base^exp mod modulus` unchanged. */
  lemma PowLoopStep(result: nat, base: nat, exp: nat, m: nat)
    requires m > 0
    ensures ((if exp % 2 == 1 then (result * base) % m else result) * Pow((base * base) % m, exp / 2)) % m
            == (result * Pow(base, exp)) % m
  {
    var odd := if exp % 2 == 1 then base else 1;
    var rest := Pow((base * base) % m, exp / 2);
    SquareStep(base, exp, m);
    assert rest * odd % m == Pow(base, exp) % m;
    MulModRight(result, Pow(base, exp), m);
    MulModRight(result, rest * odd, m);
    if exp % 2 == 1 {
      MulModLeft(result * odd, rest, m);
      assert result * odd * rest == result * (rest * odd);
    } else {
      assert result * rest == result * (rest * odd);
    }
  }

  /** Exponents add under `mod_pow` (for an invertible base). */
  lemma ExpModAdd(b: nat, e1: nat, e2: nat, m: nat)
    requires 2 <= m < U64 && b % m != 0
    ensures ExpMod(b, e1 + e2, m) == ModMul(ExpMod(b, e1, m), ExpMod(b, e2, m), m)
  {
    ExpModValue(b, e1 + e2, m);
    ExpModValue(b, e1, m);
    ExpModValue(b, e2, m);
    PowAdd(b, e1, e2);
    MulMod(Pow(b, e1), Pow(b, e2), m);
  }

  /** The values exercised by the source's own demonstration. */
  lemma KernelExamples()
    ensures ModMul(123, 456, 1000) == 88
    ensures ExpMod(2, 10, 1000) == 24
  {
    assert Pow(2, 10) == 1024 by {
      assert Pow(2, 5) == 32;
    }
  }

  /** What `mod_inv` returns: 0 for a modulus below 2 or a non-invertible
      `a`, `a mod 2` for the modulus 2, otherwise `a^(modulus-2) mod modulus`. */
  function FermatInverse(a: nat, modulus: nat): nat
  {
    if modulus < 2 || a % modulus == 0 then 0
    else if modulus == 2 then a % 2
    else ExpMod(a, modulus - 2, modulus)
  }

  /** `mod_inv` (Fermat's little theorem). */
  method ModInv(a: nat, modulus: nat) returns (r: nat)
    requires a < U64 && modulus < U64
    ensures r == FermatInverse(a, modulus)
    ensures modulus >= 2 ==> r < modulus
  {
    if modulus < 2 || a % modulus == 0 {
      return 0;
    }
    if modulus == 2 {
      return a % 2;
    }
    r := ModPow(a, modulus - 2, modulus);
  }

  /** For a prime modulus the Fermat inverse is a true inverse. */
  lemma FermatInverseCorrect(a: nat, p: nat)
    requires IsPrime(p) && a % p != 0
    ensures FermatInverse(a, p) < p
    ensures (a * FermatInverse(a, p)) % p == 1
  {
    if p == 2 {
      assert a % 2 == 1;
      assert (a * 1) % 2 == 1;
    } else {
      ExpModValue(a, p - 2, p);
      FermatLittle(p, a);
      MulModRight(a, Pow(a, p - 2), p);
      assert a * Pow(a, p - 2) == Pow(a, p - 1);
    }
  }

  lemma FermatInverseExample()
    ensures FermatInverse(3, 17) == 6
  {
    ExpModValue(3, 15, 17);
    assert Pow(3, 15) == 14348907 by {
      assert Pow(3, 5) == 243;
      PowAdd(3, 5, 5);
      PowAdd(3, 10, 5);
    }
  }

  function Abs(x: int): nat
  {
    if x < 0 then -x else x
  }

  /** `mod_inv_extended`: the extended Euclidean algorithm on `i64`. It
      returns 0 for the modulus 0 and whenever `a` and the modulus share a
      factor; otherwise an inverse of `a`, reduced for every modulus from 2 on. */
  method ModInvExtended(a: nat, modulus: nat) returns (inv: nat)
    requires a < I64 && modulus < I64
    ensures modulus == 0 ==> inv == 0
    ensures modulus > 0 && Gcd(modulus, a) != 1 ==> inv == 0
    ensures modulus > 0 && Gcd(modulus, a) == 1 ==> inv <= modulus && (a * inv) % modulus == 1 % modulus
    ensures modulus >= 2 && Gcd(modulus, a) == 1 ==> inv < modulus
  {
    if modulus == 0 {
      return 0;
    }
    var t: int, newt: int := 0, 1;
    var r: int, newr: int := modulus, a;
    ghost var s: int, news: int := 1, 0;
    while newr != 0
      invariant 0 <= newr && 1 <= r
      invariant Gcd(r, newr) == Gcd(modulus, a)
      invariant r == s * modulus + t * a && newr == news * modulus + newt * a
      invariant t * newt <= 0
      invariant Abs(t) * newr + Abs(newt) * r == modulus
      invariant Abs(t) <= modulus
      decreases newr
    {
      var quotient := r / newr;
      assert Gcd(r, newr) == Gcd(newr, r % newr);
      EuclidStep(modulus, a, t, newt, r, newr, s, news, quotient);
      t, newt := newt, t - quotient * newt;
      r, newr := newr, r - quotient * newr;
      s, news := news, s - quotient * news;
    }
    if r > 1 {
      return 0;
    }
    ExtendedResult(a, modulus, s, t);
    if t < 0 {
      t := t + modulus;
    }
    inv := t;
  }

  /** After the loop, `1 == s * modulus + t * a` with `|t| <= modulus`: the
      (shifted) coefficient `t` is an inverse of `a`. */
  lemma ExtendedResult(a: nat, m: nat, s: int, t: int)
    requires m >= 1 && 1 == s * m + t * a && Abs(t) <= m
    ensures var inv := if t < 0 then t + m else t;
      0 <= inv <= m && (a * inv) % m == 1 % m && (m >= 2 ==> inv < m)
  {
    ModShift(t * a, s, m);
    assert (t * a) % m == 1 % m;
    if t < 0 {
      ModShift(t * a, a, m);
      assert a * (t + m) == t * a + m * a;
    } else {
      assert a * t == t * a;
      if m >= 2 && t == m {
        MulModZero(m, a);
        DivModUnique(1, m, 0, 1);
        assert false;
      }
    }
  }

  /** One iteration of the extended Euclidean loop keeps its invariants:
      the Bezout relations, the alternating signs of `t`/`newt` and the
      identity that bounds them by the modulus. */
  lemma EuclidStep(m: int, a: int, t: int, newt: int, r: int, newr: int, s: int, news: int, q: int)
    requires newr > 0 && r >= 1 && q == r / newr
    requires r == s * m + t * a && newr == news * m + newt * a
    requires t * newt <= 0
    requires Abs(t) * newr + Abs(newt) * r == m
    ensures r - q * newr == r % newr
    ensures 0 <= r - q * newr < newr
    ensures r - q * newr == (s - q * news) * m + (t - q * newt) * a
    ensures newt * (t - q * newt) <= 0
    ensures Abs(newt) * (r - q * newr) + Abs(t - q * newt) * newr == m
    ensures Abs(newt) <= m
  {
    assert r - q * newr == r % newr;
    assert q >= 0;
    BezoutStep(m, a, t, newt, s, news, q);
    SignStep(t, newt, q);
    AbsStep(t, newt, q);
    BoundStep(Abs(t), Abs(newt), r, newr, q);
    FactorBound(Abs(newt), r, Abs(t) * newr, m);
  }

  lemma FactorBound(x: nat, y: int, rest: int, m: int)
    requires y >= 1 && rest >= 0 && x * y + rest == m
    ensures x <= m
  {
    if x > 0 {
      MulAtLeast(x, y);
    }
  }

  lemma BezoutStep(m: int, a: int, t: int, newt: int, s: int, news: int, q: int)
    ensures (s * m + t * a) - q * (news * m + newt * a) == (s - q * news) * m + (t - q * newt) * a
  {
  }

  lemma SignStep(t: int, newt: int, q: int)
    requires t * newt <= 0 && q >= 0
    ensures newt * (t - q * newt) <= 0
  {
    assert newt * (t - q * newt) == t * newt - q * (newt * newt);
    assert newt * newt >= 0;
    assert q * (newt * newt) >= 0;
  }

  lemma AbsStep(t: int, newt: int, q: int)
    requires t * newt <= 0 && q >= 0
    ensures Abs(t - q * newt) == Abs(t) + q * Abs(newt)
  {
    if newt > 0 {
      assert t <= 0;
      assert q * newt >= 0;
    } else if newt < 0 {
      assert t >= 0;
      assert q * newt <= 0;
      assert q * Abs(newt) == -(q * newt);
    }
  }

  lemma BoundStep(at: int, an: int, r: int, newr: int, q: int)
    ensures an * (r - q * newr) + (at + q * an) * newr == an * r + at * newr
  {
  }
}
