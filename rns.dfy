/**
 * The residue number system of src/rns.rs. A base of moduli `m_0 .. m_{k-1}`
 * with product `M` represents `x` by its residues `x mod m_i`; `new`
 * precomputes the Chinese Remainder tables `M / m_i` and the Fermat
 * inverses of `M / m_i mod m_i`, and `from_rns_fast` recombines residues
 * with them in wrapping `u128` arithmetic.
 */
module Rns {
  import opened NumberTheory
  import opened Modular

  /** `FastRns`: the moduli, their product `M` and the two CRT tables. */
  datatype FastRns = FastRns(moduli: seq<nat>, mProduct: nat, mProdDiv: seq<nat>, invProdDiv: seq<nat>)

  /** A base `new` can build: positive `u64` moduli (a zero modulus divides by
      zero) whose product fits a `u128` (a larger one overflows). */
  predicate Base(moduli: seq<nat>)
  {
    (forall i :: 0 <= i < |moduli| ==> 0 < moduli[i] < U64) && Product(moduli) < U128
  }

  /** The table `m_prod_div` for the moduli `ms`: `M / m_i` for each. */
  function DivTable(ms: seq<nat>, mp: nat): (r: seq<nat>)
    requires forall i :: 0 <= i < |ms| ==> ms[i] > 0
    ensures |r| == |ms|
  {
    if ms == [] then [] else DivTable(ms[..|ms| - 1], mp) + [Quot(mp, ms[|ms| - 1])]
  }

  /** The table `inv_prod_div`: `mod_inv(M / m_i mod m_i, m_i)` for each. */
  function InvTable(ms: seq<nat>, mp: nat): (r: seq<nat>)
    requires forall i :: 0 <= i < |ms| ==> ms[i] > 0
    ensures |r| == |ms|
  {
    if ms == [] then []
    else
      var m := ms[|ms| - 1];
      InvTable(ms[..|ms| - 1], mp) + [FermatInverse(Residue(Quot(mp, m), m), m)]
  }

  lemma {:induction false} TablesAt(ms: seq<nat>, mp: nat, i: nat)
    requires (forall k :: 0 <= k < |ms| ==> ms[k] > 0) && i < |ms|
    ensures DivTable(ms, mp)[i] == mp / ms[i]
    ensures InvTable(ms, mp)[i] == FermatInverse((mp / ms[i]) % ms[i], ms[i])
    decreases |ms|
  {
    var last := |ms| - 1;
    if i < last {
      TablesAt(ms[..last], mp, i);
    } else {
      QuotDiv(mp, ms[i]);
      ResidueMod(mp / ms[i], ms[i]);
    }
  }

  /** A `FastRns` as `new` leaves it. */
  predicate Valid(rns: FastRns)
  {
    Base(rns.moduli) && rns.mProduct == Product(rns.moduli) && rns.mProduct > 0 &&
    rns.mProdDiv == DivTable(rns.moduli, rns.mProduct) && rns.invProdDiv == InvTable(rns.moduli, rns.mProduct)
  }

  /** `FastRns::new`: one pass over the moduli pushes `M / m_i` and its
      inverse modulo `m_i`. */
  method New(moduli: seq<nat>) returns (rns: FastRns)
    requires Base(moduli)
    ensures rns.moduli == moduli && Valid(rns)
  {
    var mp := Product(moduli);
    ProductPositive(moduli);
    var divs: seq<nat> := [];
    var invs: seq<nat> := [];
    for k := 0 to |moduli|
      invariant divs == DivTable(moduli[..k], mp) && invs == InvTable(moduli[..k], mp)
    {
      var m := moduli[k];
      var prodDiv := mp / m;
      divs := divs + [prodDiv];
      var inv := ModInv(prodDiv % m, m);
      invs := invs + [inv];
      TablesStep(moduli, mp, k);
    }
    assert moduli[..|moduli|] == moduli;
    rns := FastRns(moduli, mp, divs, invs);
  }

  lemma TablesStep(ms: seq<nat>, mp: nat, k: nat)
    requires (forall i :: 0 <= i < |ms| ==> ms[i] > 0) && k < |ms|
    ensures DivTable(ms[..k + 1], mp) == DivTable(ms[..k], mp) + [mp / ms[k]]
    ensures InvTable(ms[..k + 1], mp) == InvTable(ms[..k], mp) + [FermatInverse((mp / ms[k]) % ms[k], ms[k])]
  {
    assert ms[..k + 1][..k] == ms[..k];
    QuotDiv(mp, ms[k]);
    ResidueMod(mp / ms[k], ms[k]);
  }

  /** `M / m_i` is exact: it is the product of the other moduli. */
  lemma ProdDivExact(rns: FastRns, i: nat)
    requires Valid(rns) && i < |rns.moduli|
    ensures rns.mProdDiv[i] == ProductExcept(rns.moduli, i)
    ensures rns.mProdDiv[i] * rns.moduli[i] == rns.mProduct
    ensures rns.invProdDiv[i] == FermatInverse(rns.mProdDiv[i] % rns.moduli[i], rns.moduli[i])
  {
    TablesAt(rns.moduli, rns.mProduct, i);
    ProductSplit(rns.moduli, i);
    ExactQuotient(rns.mProduct, rns.moduli[i], ProductExcept(rns.moduli, i));
  }

  lemma ExactQuotient(x: nat, m: nat, p: nat)
    requires m > 0 && x == m * p
    ensures x / m == p && p * m == x
  {
    DivModUnique(x, m, p, 0);
  }

  /** Every inverse entry is reduced modulo its own modulus. */
  lemma InverseBound(rns: FastRns, i: nat)
    requires Valid(rns) && i < |rns.moduli|
    ensures rns.invProdDiv[i] < rns.moduli[i]
  {
    ProdDivExact(rns, i);
    var m := rns.moduli[i];
    if m >= 2 {
      ModInvBound(rns.mProdDiv[i] % m, m);
    }
  }

  lemma ModInvBound(a: nat, m: nat)
    requires 2 <= m
    ensures FermatInverse(a, m) < m
  {
    if a % m != 0 && m > 2 {
      ExpModValue(a, m - 2, m);
    }
  }

  /** For a base of distinct primes, `M / m_i * inv_i` is 1 modulo `m_i` and
      0 modulo every other modulus: the CRT basis. */
  lemma CrtBasis(rns: FastRns, i: nat, j: nat)
    requires Valid(rns) && DistinctPrimes(rns.moduli) && i < |rns.moduli| && j < |rns.moduli|
    ensures i == j ==> Basis(rns, i) % rns.moduli[j] == 1
    ensures i != j ==> Basis(rns, i) % rns.moduli[j] == 0
  {
    var ms, d, inv := rns.moduli, rns.mProdDiv[i], rns.invProdDiv[i];
    ProdDivExact(rns, i);
    if i == j {
      PrimeNotDividingProductExcept(ms, i);
      InverseOfResidue(d, ms[i]);
    } else {
      FactorDividesProductExcept(ms, i, j);
      DividesMul(ms[j], d, inv);
    }
  }

  /** The Fermat inverse of `d mod p` inverts `d` modulo the prime `p`. */
  lemma InverseOfResidue(d: nat, p: nat)
    requires IsPrime(p) && d % p != 0
    ensures (d * FermatInverse(d % p, p)) % p == 1
  {
    ModOfMod(d, p);
    FermatInverseCorrect(d % p, p);
    MulModLeft(d, FermatInverse(d % p, p), p);
  }

  /** `to_rns_single`: the residue of `x` for each modulus, in order. */
  function ToRnsSingle(rns: FastRns, x: nat): (r: seq<nat>)
    requires Valid(rns)
    ensures |r| == |rns.moduli| && forall i :: 0 <= i < |r| ==> r[i] < rns.moduli[i]
  {
    seq(|rns.moduli|, i requires 0 <= i < |rns.moduli| => x % rns.moduli[i])
  }

  /** `to_rns_batch`: `to_rns_single` on each number, in order. */
  function ToRnsBatch(rns: FastRns, numbers: seq<nat>): (r: seq<seq<nat>>)
    requires Valid(rns)
    ensures |r| == |numbers| && forall k :: 0 <= k < |r| ==> |r[k]| == |rns.moduli|
  {
    seq(|numbers|, k requires 0 <= k < |numbers| => ToRnsSingle(rns, numbers[k]))
  }

  /** Summand `i` of `from_rns_fast`: `r_i * (M / m_i) * inv_i` with both
      products wrapping modulo 2^128. */
  function Term(rns: FastRns, rs: seq<nat>, i: nat): nat
    requires Valid(rns) && i < |rs| <= |rns.moduli|
  {
    (((rs[i] * rns.mProdDiv[i]) % U128) * rns.invProdDiv[i]) % U128
  }

  /** The accumulator of `from_rns_fast` after the first `k` residues: each
      step adds a summand with a wrapping `u128` addition and reduces
      modulo `M`. */
  function Accumulate(rns: FastRns, rs: seq<nat>, k: nat): (r: nat)
    requires Valid(rns) && k <= |rs| <= |rns.moduli|
    ensures r < rns.mProduct
  {
    if k == 0 then 0 else Residue((Accumulate(rns, rs, k - 1) + Term(rns, rs, k - 1)) % U128, rns.mProduct)
  }

  /** What `from_rns_fast` returns. */
  function FromRns(rns: FastRns, rs: seq<nat>): nat
    requires Valid(rns) && |rs| <= |rns.moduli|
  {
    Residue(Accumulate(rns, rs, |rs|), rns.mProduct)
  }

  /** `from_rns_fast`. Reading a residue beyond the tables panics, hence the
      length requirement. */
  method FromRnsFast(rns: FastRns, residues: seq<nat>) returns (r: nat)
    requires Valid(rns) && |residues| <= |rns.moduli|
    ensures r == FromRns(rns, residues) && r < rns.mProduct
  {
    var result: nat := 0;
    for i := 0 to |residues|
      invariant result == Accumulate(rns, residues, i)
    {
      var term := (((residues[i] * rns.mProdDiv[i]) % U128) * rns.invProdDiv[i]) % U128;
      ResidueMod((result + term) % U128, rns.mProduct);
      result := ((result + term) % U128) % rns.mProduct;
    }
    ResidueMod(result, rns.mProduct);
    r := result % rns.mProduct;
  }

  /** The CRT basis element `(M / m_i) * inv_i`. */
  function Basis(rns: FastRns, i: nat): nat
    requires Valid(rns) && i < |rns.moduli|
  {
    MulNonNegative(rns.mProdDiv[i], rns.invProdDiv[i]);
    rns.mProdDiv[i] * rns.invProdDiv[i]
  }

  /** The exact summand `r_i * (M / m_i) * inv_i`. */
  function Summand(rns: FastRns, rs: seq<nat>, i: nat): nat
    requires Valid(rns) && i < |rs| <= |rns.moduli|
  {
    MulNonNegative(rs[i], Basis(rns, i));
    rs[i] * Basis(rns, i)
  }

  /** The exact sum of the first `k` summands. */
  function CrtSum(rns: FastRns, rs: seq<nat>, k: nat): nat
    requires Valid(rns) && k <= |rs| <= |rns.moduli|
  {
    if k == 0 then 0 else CrtSum(rns, rs, k - 1) + Summand(rns, rs, k - 1)
  }

  /** Residues of a base whose product fits 64 bits: every summand and every
      partial sum stays below 2^128, so nothing wraps. */
  predicate Reduced(rns: FastRns, rs: seq<nat>)
    requires Valid(rns) && |rs| <= |rns.moduli|
  {
    forall i :: 0 <= i < |rs| ==> rs[i] < rns.moduli[i]
  }

  /** Without wrap-around, the accumulator is the exact sum modulo `M`. */
  lemma {:induction false} AccumulateExact(rns: FastRns, rs: seq<nat>, k: nat)
    requires Valid(rns) && k <= |rs| <= |rns.moduli| && Reduced(rns, rs) && rns.mProduct < U64
    ensures Accumulate(rns, rs, k) == CrtSum(rns, rs, k) % rns.mProduct
  {
    var mp := rns.mProduct;
    if k == 0 {
      DivModUnique(0, mp, 0, 0);
    } else {
      var i := k - 1;
      AccumulateExact(rns, rs, i);
      var prev := Accumulate(rns, rs, i);
      var t := Summand(rns, rs, i);
      TermNoWrap(rns, rs, i);
      SumNoWrap(prev, t, mp);
      AccumulateStep(CrtSum(rns, rs, i), prev, t, mp);
    }
  }

  /** One step of the accumulator when the `u128` addition does not wrap. */
  lemma AccumulateStep(sum: nat, prev: nat, t: nat, mp: nat)
    requires mp >= 1 && prev == sum % mp && prev + t < U128
    ensures Residue((prev + t) % U128, mp) == (sum + t) % mp
  {
    DivModUnique(prev + t, U128, 0, prev + t);
    ResidueMod(prev + t, mp);
    AddMod(sum, t, mp);
    AddMod(prev, t, mp);
    ModOfMod(sum, mp);
  }

  /** A summand of reduced residues is below `M * M` and does not wrap. */
  lemma TermNoWrap(rns: FastRns, rs: seq<nat>, i: nat)
    requires Valid(rns) && i < |rs| <= |rns.moduli| && Reduced(rns, rs) && rns.mProduct < U64
    ensures Summand(rns, rs, i) < rns.mProduct * rns.mProduct
    ensures Term(rns, rs, i) == Summand(rns, rs, i)
  {
    ProdDivExact(rns, i);
    InverseBound(rns, i);
    assert rns.mProdDiv[i] != 0;
    NoWrapCore(rs[i], rns.moduli[i], rns.mProdDiv[i], rns.invProdDiv[i], rns.mProduct);
  }

  lemma NoWrapCore(r: nat, m: nat, d: nat, inv: nat, mp: nat)
    requires r < m && inv < m && 1 <= d && d * m == mp && mp < U64
    ensures r * (d * inv) < mp * mp
    ensures (((r * d) % U128) * inv) % U128 == r * (d * inv)
  {
    var rd: nat := r * d;
    assert m * d == mp;
    LessMul(r, m, d);
    MulMono(rd, rd, inv, m);
    LessMul(rd, mp, m);
    MulMono(mp, mp, m, mp);
    BelowSquare(mp);
    MulNonNegative(rd, inv);
    var t: nat := rd * inv;
    assert t < U128;
    DivModUnique(rd, U128, 0, rd);
    DivModUnique(t, U128, 0, t);
    MulAssociative(r, d, inv);
  }

  lemma MulAssociative(a: int, b: int, c: int)
    ensures a * (b * c) == a * b * c
  {
  }

  lemma MulNonNegative(a: nat, b: nat)
    ensures a * b >= 0
  {
  }

  /** `a < b` and `c >= 1` give `a * c < b * c`. */
  lemma LessMul(a: nat, b: nat, c: nat)
    requires a < b && c >= 1
    ensures a * c < b * c
  {
    MulStrict(a, b, c);
  }

  /** `a < b` and `c > 0` give `a * c < b * c`. */
  lemma MulStrict(a: nat, b: nat, c: nat)
    requires a < b
    ensures a * c <= b * c - c
  {
    assert b * c - a * c == (b - a) * c;
    MulAtLeastOne(b - a, c);
  }

  lemma MulAtLeastOne(a: nat, c: nat)
    requires a >= 1
    ensures a * c >= c
  {
    assert a * c == (a - 1) * c + c;
  }

  lemma BelowSquare(mp: nat)
    requires mp < U64
    ensures mp * mp + mp < U128
  {
    MulMono(mp, U64 - 1, mp + 1, U64);
    assert (U64 - 1) * U64 < U128;
  }

  lemma SumNoWrap(prev: nat, t: nat, mp: nat)
    requires prev < mp < U64 && t < mp * mp
    ensures prev + t < U128
  {
    BelowSquare(mp);
  }

  /** Modulo the modulus `m_j`, the sum of the first `k` summands is the
      summand `j` when it is among them and 0 otherwise. */
  lemma {:induction false} CrtSumCongruent(rns: FastRns, rs: seq<nat>, k: nat, j: nat)
    requires Valid(rns) && DistinctPrimes(rns.moduli) && k <= |rs| <= |rns.moduli| && j < |rns.moduli|
    ensures Divides(rns.moduli[j], CrtSum(rns, rs, k) - (if j < k then Summand(rns, rs, j) else 0))
  {
    var mj := rns.moduli[j];
    if k == 0 {
      MulModZero(mj, 0);
    } else {
      var i := k - 1;
      CrtSumCongruent(rns, rs, i, j);
      if i != j {
        CrtBasis(rns, i, j);
        var prevDiff := CrtSum(rns, rs, i) - (if j < i then Summand(rns, rs, j) else 0);
        DividesStep(mj, prevDiff, rs[i], Basis(rns, i));
      }
    }
  }

  /** Adding a multiple of a multiple of `d` keeps divisibility by `d`. */
  lemma DividesStep(d: int, x: int, r: int, b: int)
    requires Divides(d, x) && d > 0 && b % d == 0
    ensures Divides(d, x + r * b)
  {
    DividesLinear(d, x, b, 1, r);
  }

  /** The summand of `x mod m_j` is `x` modulo `m_j`. */
  lemma TermCongruent(rns: FastRns, x: nat, j: nat)
    requires Valid(rns) && DistinctPrimes(rns.moduli) && j < |rns.moduli|
    ensures Divides(rns.moduli[j], Summand(rns, ToRnsSingle(rns, x), j) - x)
  {
    CrtBasis(rns, j, j);
    ResidueTimesBasis(x, rns.moduli[j], Basis(rns, j));
  }

  /** `(x mod m) * b` is `x` modulo `m` when `b` is 1 modulo `m`. */
  lemma ResidueTimesBasis(x: int, m: int, b: int)
    requires m > 0 && b % m == 1
    ensures Divides(m, (x % m) * b - x)
  {
    var r := x % m;
    DivModUnique(b - 1, m, b / m, 0);
    DivModUnique(r - x, m, -(x / m), 0);
    DividesLinear(m, b - 1, r - x, r, 1);
    assert r * (b - 1) + (r - x) == r * b - x;
  }

  /** The Chinese Remainder round trip: for a base of distinct primes whose
      product fits 64 bits, `from_rns_fast(to_rns_single(x)) == x mod M`. */
  lemma CrtRoundTrip(rns: FastRns, x: nat)
    requires Valid(rns) && DistinctPrimes(rns.moduli) && rns.mProduct < U64
    ensures FromRns(rns, ToRnsSingle(rns, x)) == x % rns.mProduct
  {
    var ms, rs, n := rns.moduli, ToRnsSingle(rns, x), |rns.moduli|;
    var s := CrtSum(rns, rs, n);
    forall j | 0 <= j < n
      ensures Divides(ms[j], s - x)
    {
      CrtSumCongruent(rns, rs, n, j);
      TermCongruent(rns, x, j);
      var t := Summand(rns, rs, j);
      DividesLinear(ms[j], s - t, t - x, 1, 1);
    }
    CrtUnique(ms, s - x);
    AccumulateExact(rns, rs, n);
    var q := Quotient(s - x, rns.mProduct);
    ModShift(x, q, rns.mProduct);
    ModOfMod(s, rns.mProduct);
  }

  /** Every entry of `to_rns_batch` reconstructs its number modulo `M`. */
  lemma BatchRoundTrip(rns: FastRns, numbers: seq<nat>, k: nat)
    requires Valid(rns) && DistinctPrimes(rns.moduli) && rns.mProduct < U64 && k < |numbers|
    ensures FromRns(rns, ToRnsBatch(rns, numbers)[k]) == numbers[k] % rns.mProduct
  {
    CrtRoundTrip(rns, numbers[k]);
  }

  /** `rns_add_fast`: slot `i` is the wrapping sum, less `m_i` once when it
      reaches `m_i`; the zip stops at the shortest of `a`, `b`, moduli. */
  function RnsAdd(rns: FastRns, a: seq<nat>, b: seq<nat>): (r: seq<nat>)
    ensures |r| == Min(Min(|a|, |b|), |rns.moduli|)
    ensures forall i :: 0 <= i < |r| ==> r[i] == AddSlot(a[i], b[i], rns.moduli[i])
  {
    var n := Min(Min(|a|, |b|), |rns.moduli|);
    seq(n, i requires 0 <= i < n => AddSlot(a[i], b[i], rns.moduli[i]))
  }

  function AddSlot(a: nat, b: nat, m: nat): (r: nat)
    ensures r < U64 && (r == (a + b) % U64 || r + m == (a + b) % U64)
    ensures (a + b) % U64 < 2 * m ==> r < m
  {
    var sum := (a + b) % U64;
    if sum >= m then sum - m else sum
  }

  function Min(x: nat, y: nat): nat
  {
    if x <= y then x else y
  }

  /** `rns_mul_fast`: slot `i` is `a_i * b_i mod m_i`, over the shortest of
      `a`, `b`, moduli. */
  function RnsMul(rns: FastRns, a: seq<nat>, b: seq<nat>): (r: seq<nat>)
    requires Valid(rns)
    ensures |r| == Min(Min(|a|, |b|), |rns.moduli|)
    ensures forall i :: 0 <= i < |r| ==> r[i] < rns.moduli[i]
  {
    var n := Min(Min(|a|, |b|), |rns.moduli|);
    seq(n, i requires 0 <= i < n => (a[i] * b[i]) % rns.moduli[i])
  }

  /** Both slot-wise operations have the length of the shortest operand. */
  lemma SlotLengths(rns: FastRns, a: seq<nat>, b: seq<nat>)
    requires Valid(rns)
    ensures |RnsAdd(rns, a, b)| == |RnsMul(rns, a, b)| <= |rns.moduli|
    ensures |RnsAdd(rns, a, b)| <= |a| && |RnsAdd(rns, a, b)| <= |b|
    ensures |a| == |b| == |rns.moduli| ==> |RnsAdd(rns, a, b)| == |rns.moduli|
  {
  }

  /** For reduced operands and moduli up to 2^63 the conditional
      subtraction is addition modulo `m_i`. */
  lemma AddSlotMod(a: nat, b: nat, m: nat)
    requires a < m && b < m && m <= I64
    ensures AddSlot(a, b, m) == (a + b) % m
  {
    DivModUnique(a + b, U64, 0, a + b);
    if a + b >= m {
      DivModUnique(a + b, m, 1, a + b - m);
    } else {
      DivModUnique(a + b, m, 0, a + b);
    }
  }

  /** Residues are a ring homomorphism: adding residue vectors slot by slot
      is adding the numbers (moduli up to 2^63, so no sum wraps). */
  lemma RnsAddHomomorphic(rns: FastRns, x: nat, y: nat)
    requires Valid(rns) && forall i :: 0 <= i < |rns.moduli| ==> rns.moduli[i] <= I64
    ensures RnsAdd(rns, ToRnsSingle(rns, x), ToRnsSingle(rns, y)) == ToRnsSingle(rns, x + y)
  {
    var lhs, rhs := RnsAdd(rns, ToRnsSingle(rns, x), ToRnsSingle(rns, y)), ToRnsSingle(rns, x + y);
    forall i | 0 <= i < |rns.moduli|
      ensures lhs[i] == rhs[i]
    {
      var m := rns.moduli[i];
      AddSlotMod(x % m, y % m, m);
      AddMod(x, y, m);
    }
  }

  /** The modulus product and the quotient table `new` builds for the base
      `[3, 5, 7]`: `M = 105` and `[35, 21, 15]`. */
  lemma ExampleQuotients()
    ensures Product([3, 5, 7]) == 105 && DivTable([3, 5, 7], 105) == [35, 21, 15]
  {
    var ms := [3, 5, 7];
    assert ms[1..] == [5, 7] && ms[1..][1..] == [7] && ms[1..][1..][1..] == [];
    assert Product([3, 5, 7]) == 105;
    assert ms[..2] == [3, 5] && ms[..2][..1] == [3] && ms[..2][..1][..0] == [];
    QuotDiv(105, 3);
    assert DivTable([3], 105) == [35];
    QuotDiv(105, 5);
    assert DivTable([3, 5], 105) == [35, 21];
    QuotDiv(105, 7);
  }

  /** The inverse table `new` builds for the base `[3, 5, 7]`: 35 is 2
      modulo 3 and its own inverse there, while 21 and 15 are 1 modulo 5
      and modulo 7. */
  lemma ExampleInverses()
    ensures InvTable([3, 5, 7], 105) == [2, 1, 1]
  {
    var ms := [3, 5, 7];
    assert ms[..2] == [3, 5] && ms[..2][..1] == [3] && ms[..2][..1][..0] == [];
    QuotDiv(105, 3);
    QuotDiv(105, 5);
    QuotDiv(105, 7);
    ResidueMod(35, 3);
    ResidueMod(21, 5);
    ResidueMod(15, 7);
    assert Pow(2, 1) == 2 && Pow(1, 3) == 1 && Pow(1, 5) == 1;
  }

  /** The three summands and the accumulator of `from_rns_fast` on the
      residues `[1, 2, 3]`: 70, 70 + 42 = 112 reduced to 7, and 7 + 45. */
  lemma ExampleSums(rns: FastRns)
    requires rns == FastRns([3, 5, 7], 105, [35, 21, 15], [2, 1, 1]) && Valid(rns)
    ensures FromRns(rns, [1, 2, 3]) == 52
  {
    var rs := [1, 2, 3];
    ExampleTerms(rns);
    DivModUnique(70, U128, 0, 70);
    DivModUnique(112, U128, 0, 112);
    DivModUnique(52, U128, 0, 52);
    assert Accumulate(rns, rs, 1) == 70;
    ResidueMod(112, 105);
    assert Accumulate(rns, rs, 2) == 7;
  }

  /** The summands of `from_rns_fast` on the residues `[1, 2, 3]`:
      `1 * 35 * 2`, `2 * 21 * 1` and `3 * 15 * 1`. */
  lemma ExampleTerms(rns: FastRns)
    requires rns == FastRns([3, 5, 7], 105, [35, 21, 15], [2, 1, 1]) && Valid(rns)
    ensures Term(rns, [1, 2, 3], 0) == 70 && Term(rns, [1, 2, 3], 1) == 42
    ensures Term(rns, [1, 2, 3], 2) == 45
  {
    DivModUnique(35, U128, 0, 35);
    DivModUnique(42, U128, 0, 42);
    DivModUnique(45, U128, 0, 45);
    DivModUnique(70, U128, 0, 70);
  }

  /** The base `[3, 5, 7]`: 52 splits into the residues `[1, 2, 3]`, and
      `from_rns_fast` turns them back into 52. */
  lemma CrtExample()
    ensures Valid(FastRns([3, 5, 7], 105, [35, 21, 15], [2, 1, 1]))
    ensures ToRnsSingle(FastRns([3, 5, 7], 105, [35, 21, 15], [2, 1, 1]), 52) == [1, 2, 3]
    ensures FromRns(FastRns([3, 5, 7], 105, [35, 21, 15], [2, 1, 1]), [1, 2, 3]) == 52
  {
    ExampleQuotients();
    ExampleInverses();
    var rns := FastRns([3, 5, 7], 105, [35, 21, 15], [2, 1, 1]);
    ExampleSums(rns);
  }

  /** `rns_add_fast` as written, above 2^63: for the modulus `2^64 - 1`
      the sum of the residues `2^64 - 2` and `2^64 - 2` wraps, and the slot
      is `2^64 - 4` where the residue of the sum is `2^64 - 3`. */
  lemma RnsAddWraps(rns: FastRns)
    requires rns.moduli == [U64 - 1]
    ensures RnsAdd(rns, [U64 - 2], [U64 - 2]) == [U64 - 4]
    ensures ((U64 - 2) + (U64 - 2)) % (U64 - 1) == U64 - 3
    ensures RnsAddCorrected(rns, [U64 - 2], [U64 - 2]) == [U64 - 3]
  {
    DivModUnique((U64 - 2) + (U64 - 2), U64, 1, U64 - 4);
    DivModUnique((U64 - 2) + (U64 - 2), U64 - 1, 1, U64 - 3);
  }

  /** The slot of `rns_add_fast` with the sum taken without wrapping. */
  function AddSlotWide(a: nat, b: nat, m: nat): (r: nat)
    ensures r == a + b || r + m == a + b
    ensures a + b < 2 * m ==> r < m
  {
    var sum := a + b;
    if sum >= m then sum - m else sum
  }

  /** `rns_add_fast` with `AddSlotWide` in every slot. */
  function RnsAddCorrected(rns: FastRns, a: seq<nat>, b: seq<nat>): (r: seq<nat>)
    ensures |r| == Min(Min(|a|, |b|), |rns.moduli|)
    ensures forall i :: 0 <= i < |r| ==> r[i] == AddSlotWide(a[i], b[i], rns.moduli[i])
  {
    var n := Min(Min(|a|, |b|), |rns.moduli|);
    seq(n, i requires 0 <= i < n => AddSlotWide(a[i], b[i], rns.moduli[i]))
  }

  /** For reduced operands the wide slot is addition modulo `m`, for every
      modulus. */
  lemma AddSlotWideMod(a: nat, b: nat, m: nat)
    requires a < m && b < m
    ensures AddSlotWide(a, b, m) == (a + b) % m
  {
    if a + b >= m {
      DivModUnique(a + b, m, 1, a + b - m);
    } else {
      DivModUnique(a + b, m, 0, a + b);
    }
  }

  /** With the wide slot, adding residue vectors is adding the numbers for
      every base. */
  lemma RnsAddCorrectedHomomorphic(rns: FastRns, x: nat, y: nat)
    requires Valid(rns)
    ensures RnsAddCorrected(rns, ToRnsSingle(rns, x), ToRnsSingle(rns, y)) == ToRnsSingle(rns, x + y)
  {
    var lhs, rhs := RnsAddCorrected(rns, ToRnsSingle(rns, x), ToRnsSingle(rns, y)), ToRnsSingle(rns, x + y);
    forall i | 0 <= i < |rns.moduli|
      ensures lhs[i] == rhs[i]
    {
      var m := rns.moduli[i];
      AddSlotWideMod(x % m, y % m, m);
      AddMod(x, y, m);
    }
  }

  /** Multiplying residue vectors slot by slot is multiplying the numbers. */
  lemma RnsMulHomomorphic(rns: FastRns, x: nat, y: nat)
    requires Valid(rns)
    ensures RnsMul(rns, ToRnsSingle(rns, x), ToRnsSingle(rns, y)) == ToRnsSingle(rns, x * y)
  {
    var lhs, rhs := RnsMul(rns, ToRnsSingle(rns, x), ToRnsSingle(rns, y)), ToRnsSingle(rns, x * y);
    forall i | 0 <= i < |rns.moduli|
      ensures lhs[i] == rhs[i]
    {
      MulMod(x, y, rns.moduli[i]);
    }
  }

  /** A slot of `rns_mul_fast` is `mod_mul` of the kernel under its own
      modulus, and so is commutative and reduced. */
  lemma RnsMulSlot(rns: FastRns, a: seq<nat>, b: seq<nat>, i: nat)
    requires Valid(rns) && i < |RnsMul(rns, a, b)| && a[i] < U64 && b[i] < U64
    ensures RnsMul(rns, a, b)[i] < rns.moduli[i]
    ensures rns.moduli[i] >= 2 ==> RnsMul(rns, a, b)[i] == ModMul(a[i], b[i], rns.moduli[i])
    ensures RnsMul(rns, a, b)[i] == RnsMul(rns, b, a)[i]
  {
    assert a[i] * b[i] == b[i] * a[i];
    if rns.moduli[i] == 1 {
      DivModUnique(a[i] * b[i], 1, a[i] * b[i], 0);
    }
  }
}
