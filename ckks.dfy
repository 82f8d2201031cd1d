/**
 * The rotation of the CKKS scheme (src/fhe/ckks.rs). `rotate_polynomial`
 * moves coefficient `i` to position `(i + s) mod n` for the shift `steps`
 * normalised into `[0, n)`, and for an odd shift then negates, with
 * `mod_sub(0, x, modulus)`, the coefficients at odd positions. The shift is
 * an `isize`, normalised with Rust's truncating `%`.
 */
module Ckks {
  import opened NumberTheory
  import opened Modular

  /** A `Vec<u64>` holds at most `isize::MAX` bytes, so fewer than 2^60
      words; `n as isize` and `steps % n + n` therefore never overflow. */
  const MaxLen: nat := 0x1000_0000_0000_0000

  /** Rust's `%` on signed integers: the remainder takes the sign of the
      dividend, and is congruent to it. */
  function TruncRem(a: int, n: nat): (r: int)
    requires n >= 1
    ensures -(n as int) < r < n && (a >= 0 ==> r >= 0) && (a < 0 ==> r <= 0)
  {
    if a >= 0 then a % n else -((-a) % n)
  }

  /** `((steps % n) + n) as usize % n`: the shift normalised into `[0, n)`.
      Despite the truncating `%` it is the Euclidean residue of `steps`. */
  function NormalShift(steps: int, n: nat): (s: nat)
    requires n >= 1
    ensures s < n && s == steps % n
  {
    TruncRemShift(steps, n);
    (TruncRem(steps, n) + n) % n
  }

  lemma TruncRemShift(a: int, n: nat)
    requires n >= 1
    ensures (TruncRem(a, n) + n) % n == a % n
  {
    if a >= 0 {
      var r := a % n;
      DivModUnique(r + n, n, 1, r);
    } else {
      var b := -a;
      var qb, rb := b / n, b % n;
      assert b == n * qb + rb;
      if rb == 0 {
        DivModUnique(a, n, -qb, 0);
        DivModUnique(n, n, 1, 0);
      } else {
        DivModUnique(a, n, -qb - 1, n - rb);
        DivModUnique(n - rb, n, 0, n - rb);
      }
    }
  }

  // ---------------------------------------------------------------------
  // Positions

  /** Where coefficient `i` goes for the shift `s`: `(i + s) % n`. */
  function Target(i: nat, s: nat, n: nat): (j: nat)
    requires i < n && s < n
    ensures j < n && j == (i + s) % n
  {
    if i + s < n then DivModUnique(i + s, n, 0, i + s); i + s
    else DivModUnique(i + s, n, 1, i + s - n); i + s - n
  }

  /** Which coefficient lands at position `j` for the shift `s`. */
  function Source(j: nat, s: nat, n: nat): (i: nat)
    requires j < n && s < n
    ensures i < n && Target(i, s, n) == j
  {
    if j >= s then j - s else j + n - s
  }

  // ---------------------------------------------------------------------
  // The rotation

  /** `poly` shifted cyclically by `s`: position `j` holds the coefficient
      that moves there. */
  function Shifted(poly: seq<nat>, s: nat): (r: seq<nat>)
    requires s < |poly|
    ensures |r| == |poly|
  {
    seq(|poly|, j requires 0 <= j < |poly| => poly[Source(j, s, |poly|)])
  }

  /** The coefficients at odd positions replaced by `mod_sub(0, x, modulus)`. */
  function NegateOdd(v: seq<nat>, modulus: nat): (r: seq<nat>)
    requires Words(v) && modulus < U64
    ensures |r| == |v|
  {
    seq(|v|, j requires 0 <= j < |v| => if j % 2 == 1 then ModSub(0, v[j], modulus) else v[j])
  }

  /** What `rotate_polynomial` returns. */
  function Rotation(poly: seq<nat>, steps: int, modulus: nat): (r: seq<nat>)
    requires |poly| >= 1 && Words(poly) && modulus < U64
    ensures |r| == |poly|
  {
    var s := NormalShift(steps, |poly|);
    var v := Shifted(poly, s);
    ShiftedWords(poly, s);
    if s % 2 == 1 then NegateOdd(v, modulus) else v
  }

  lemma ShiftedWords(poly: seq<nat>, s: nat)
    requires s < |poly| && Words(poly)
    ensures Words(Shifted(poly, s))
  {
  }

  /** `rotate_polynomial`: a zeroed vector filled by scattering each
      coefficient to its target, then, for an odd shift, a second pass
      negating the odd positions in place. */
  method RotatePolynomial(poly: seq<nat>, steps: int, modulus: nat) returns (rotated: seq<nat>)
    requires 1 <= |poly| < MaxLen && Words(poly) && -(I64 as int) <= steps < I64 && modulus < U64
    ensures rotated == Rotation(poly, steps, modulus)
  {
    var n := |poly|;
    var stepsMod := (TruncRem(steps, n) + n) % n;
    assert stepsMod == NormalShift(steps, n);
    var a := new nat[n](_ => 0);
    Scatter(a, poly, stepsMod);
    ghost var v := Shifted(poly, stepsMod);
    ShiftedWords(poly, stepsMod);
    if stepsMod % 2 == 1 {
      NegateOddInPlace(a, modulus);
      assert a[..] == NegateOdd(v, modulus);
    }
    rotated := a[..];
    assert Rotation(poly, steps, modulus) == if stepsMod % 2 == 1 then NegateOdd(v, modulus) else v;
  }

  /** The first loop of `rotate_polynomial`: `a[(i + s) % n] = poly[i]`
      for every `i`. */
  method Scatter(a: array<nat>, poly: seq<nat>, s: nat)
    requires a.Length == |poly| && s < |poly| && a[..] == seq(|poly|, _ => 0)
    modifies a
    ensures a[..] == Shifted(poly, s)
  {
    var n := |poly|;
    for i := 0 to n
      invariant a[..] == Scattered(poly, s, i)
    {
      var target := (i + s) % n;
      ScatterStep(poly, s, i);
      a[target] := poly[i];
    }
    ScatteredEnd(poly, s);
  }

  /** The second loop of `rotate_polynomial`: the odd positions negated in
      place with `mod_sub(0, x, modulus)`. */
  method NegateOddInPlace(a: array<nat>, modulus: nat)
    requires Words(a[..]) && modulus < U64
    modifies a
    ensures a[..] == NegateOdd(old(a[..]), modulus)
  {
    ghost var v := a[..];
    NegatedStart(v, modulus);
    for i := 0 to a.Length
      invariant a[..] == NegatedUpTo(v, modulus, i)
    {
      if i % 2 == 1 {
        a[i] := ModSub(0, a[i], modulus);
      }
      NegatedStep(v, modulus, i);
    }
    NegatedEnd(v, modulus);
  }

  /** The first loop after the coefficients `0 .. i-1` have been moved. */
  function Scattered(poly: seq<nat>, s: nat, i: nat): (r: seq<nat>)
    requires s < |poly|
    ensures |r| == |poly|
  {
    var n := |poly|;
    seq(n, j requires 0 <= j < n => if Source(j, s, n) < i then poly[Source(j, s, n)] else 0)
  }

  lemma ScatterStep(poly: seq<nat>, s: nat, i: nat)
    requires s < |poly| && i < |poly|
    ensures Scattered(poly, s, i)[(i + s) % |poly| := poly[i]] == Scattered(poly, s, i + 1)
  {
    var n := |poly|;
    var t := Target(i, s, n);
    var written := Scattered(poly, s, i)[t := poly[i]];
    forall j | 0 <= j < n
      ensures written[j] == Scattered(poly, s, i + 1)[j]
    {
      var k := Source(j, s, n);
      if j != t {
        assert k != i;
      }
    }
  }

  lemma ScatteredEnd(poly: seq<nat>, s: nat)
    requires s < |poly|
    ensures Scattered(poly, s, |poly|) == Shifted(poly, s)
  {
  }

  /** The second loop after the positions `0 .. i-1` have been visited. */
  function NegatedUpTo(v: seq<nat>, modulus: nat, i: nat): (r: seq<nat>)
    requires Words(v) && modulus < U64
    ensures |r| == |v|
  {
    seq(|v|, j requires 0 <= j < |v| => if j < i && j % 2 == 1 then ModSub(0, v[j], modulus) else v[j])
  }

  lemma NegatedStart(v: seq<nat>, modulus: nat)
    requires Words(v) && modulus < U64
    ensures NegatedUpTo(v, modulus, 0) == v
  {
  }

  lemma NegatedStep(v: seq<nat>, modulus: nat, i: nat)
    requires Words(v) && modulus < U64 && i < |v|
    ensures NegatedUpTo(v, modulus, i + 1)
      == if i % 2 == 1 then NegatedUpTo(v, modulus, i)[i := ModSub(0, NegatedUpTo(v, modulus, i)[i], modulus)]
         else NegatedUpTo(v, modulus, i)
  {
  }

  lemma NegatedEnd(v: seq<nat>, modulus: nat)
    requires Words(v) && modulus < U64
    ensures NegatedUpTo(v, modulus, |v|) == NegateOdd(v, modulus)
  {
  }

  // ---------------------------------------------------------------------
  // Properties

  /** Position `j` of the rotation: the coefficient that moves there,
      negated when the shift and `j` are both odd. */
  lemma RotationEntry(poly: seq<nat>, steps: int, modulus: nat, j: nat)
    requires |poly| >= 1 && Words(poly) && modulus < U64 && j < |poly|
    ensures var s := NormalShift(steps, |poly|); var x := poly[Source(j, s, |poly|)];
      Rotation(poly, steps, modulus)[j] == if s % 2 == 1 && j % 2 == 1 then ModSub(0, x, modulus) else x
  {
    var s := NormalShift(steps, |poly|);
    ShiftedWords(poly, s);
  }

  /** Coefficient `i` ends at `(i + steps) mod n` (`Target` of the
      normalised shift, which is `steps mod n`), negated exactly when the
      shift and that position are both odd. */
  lemma RotationAt(poly: seq<nat>, steps: int, modulus: nat, i: nat)
    requires |poly| >= 1 && Words(poly) && modulus < U64 && i < |poly|
    ensures var s := NormalShift(steps, |poly|); var j := Target(i, s, |poly|);
      Rotation(poly, steps, modulus)[j] == if s % 2 == 1 && j % 2 == 1 then ModSub(0, poly[i], modulus) else poly[i]
  {
    var s := NormalShift(steps, |poly|);
    var j := Target(i, s, |poly|);
    assert Source(j, s, |poly|) == i;
    RotationEntry(poly, steps, modulus, j);
  }

  /** Shifts that differ by a multiple of `n`, negative ones included, give
      the same rotation. */
  lemma RotationPeriodic(poly: seq<nat>, steps: int, k: int, modulus: nat)
    requires |poly| >= 1 && Words(poly) && modulus < U64
    ensures Rotation(poly, steps + k * |poly|, modulus) == Rotation(poly, steps, modulus)
  {
    var n: int := |poly|;
    var other := steps + k * n;
    assert other == steps + n * k;
    ModShift(steps, k, n);
    assert NormalShift(other, n) == NormalShift(steps, n);
  }

  /** A shift of 0, or of any multiple of `n`, leaves the polynomial as it is. */
  lemma RotationIdentity(poly: seq<nat>, steps: int, modulus: nat)
    requires |poly| >= 1 && Words(poly) && modulus < U64 && steps % |poly| == 0
    ensures Rotation(poly, steps, modulus) == poly
  {
    var n := |poly|;
    forall j | 0 <= j < n
      ensures Shifted(poly, 0)[j] == poly[j]
    {
    }
  }

  /** For a non-zero modulus a negated coefficient is the reduced additive
      inverse of the coefficient it came from. */
  lemma NegationReduced(poly: seq<nat>, steps: int, modulus: nat, i: nat)
    requires |poly| >= 1 && Words(poly) && 1 <= modulus < U64 && i < |poly|
    requires var s := NormalShift(steps, |poly|); s % 2 == 1 && Target(i, s, |poly|) % 2 == 1
    ensures var x := Rotation(poly, steps, modulus)[Target(i, NormalShift(steps, |poly|), |poly|)];
      x < modulus && (x + poly[i]) % modulus == 0
  {
    RotationAt(poly, steps, modulus, i);
    NegationInverse(poly[i], modulus);
  }

  /** `mod_sub(0, x, m)` is the reduced additive inverse of `x`. */
  lemma NegationInverse(x: nat, modulus: nat)
    requires x < U64 && 1 <= modulus < U64
    ensures ModSub(0, x, modulus) < modulus && (ModSub(0, x, modulus) + x) % modulus == 0
  {
    var y := ModSub(0, x, modulus);
    var neg: int := 0 - x;
    assert y == neg % modulus;
    ModOfMod(neg, modulus);
    CongAdd(y, neg, x, x, modulus);
    DivModUnique(0, modulus, 0, 0);
  }
}
