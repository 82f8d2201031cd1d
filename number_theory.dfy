/**
 * Integer facts the arithmetic engine rests on: Euclidean division, powers,
 * greatest common divisors and Bezout coefficients, primes, Fermat's little
 * theorem (through the binomial theorem) and the uniqueness half of the
 * Chinese Remainder Theorem. Everything here is mathematics about `int`;
 * the modules modelling the Rust source import it.
 */
module NumberTheory {

  // ---------------------------------------------------------------------
  // Euclidean division
  // ---------------------------------------------------------------------

  lemma {:induction false} MulAtLeast(m: int, d: int)
    requires m > 0 && d >= 1
    ensures m * d >= m
    decreases d
  {
    if d > 1 {
      MulAtLeast(m, d - 1);
      assert m * d == m * (d - 1) + m;
    }
  }

  /** Products of non-negative factors grow with both factors. */
  lemma MulMono(a: nat, b: nat, c: nat, d: nat)
    requires a <= b && c <= d
    ensures a * c <= b * d
  {
    assert b * d - a * c == (b - a) * d + a * (d - c);
  }

  /** A non-zero multiple of `m` is at least `m` away from zero. */
  lemma MulTrichotomy(m: int, d: int)
    requires m > 0
    ensures d == 0 || m * d >= m || m * d <= -m
  {
    if d >= 1 {
      MulAtLeast(m, d);
    } else if d <= -1 {
      MulAtLeast(m, -d);
      assert m * (-d) == -(m * d);
    }
  }

  /** Quotient and remainder are determined by `x == m * q + r, 0 <= r < m`. */
  lemma DivModUnique(x: int, m: int, q: int, r: int)
    requires m > 0 && 0 <= r < m && x == m * q + r
    ensures x / m == q && x % m == r
  {
    var q0, r0 := x / m, x % m;
    assert m * (q - q0) == r0 - r;
    MulTrichotomy(m, q - q0);
  }

  /** Dividing a natural number by a positive one gives a natural number. */
  lemma DivNonneg(x: int, m: int)
    requires x >= 0 && m > 0
    ensures x / m >= 0
  {
    var q := x / m;
    assert x == m * q + x % m;
    MulTrichotomy(m, q);
  }

  lemma ModShift(x: int, k: int, m: int)
    requires m > 0
    ensures (x + m * k) % m == x % m
  {
    DivModUnique(x + m * k, m, x / m + k, x % m);
  }

  lemma MulModZero(m: int, c: int)
    requires m > 0
    ensures (m * c) % m == 0
  {
    DivModUnique(m * c, m, c, 0);
  }

  lemma ModOfMod(x: int, m: int)
    requires m > 0
    ensures (x % m) % m == x % m
  {
    DivModUnique(x % m, m, 0, x % m);
  }

  lemma AddMod(a: int, b: int, m: int)
    requires m > 0
    ensures (a + b) % m == ((a % m) + (b % m)) % m
  {
    var qa, qb := a / m, b / m;
    assert a == m * qa + a % m && b == m * qb + b % m;
    assert m * (qa + qb) == m * qa + m * qb;
    ModShift((a % m) + (b % m), qa + qb, m);
  }

  lemma SubMod(a: int, b: int, m: int)
    requires m > 0
    ensures (a - b) % m == ((a % m) - (b % m)) % m
  {
    var qa, qb := a / m, b / m;
    assert a == m * qa + a % m && b == m * qb + b % m;
    assert m * (qa - qb) == m * qa - m * qb;
    ModShift((a % m) - (b % m), qa - qb, m);
  }

  lemma MulMod(a: int, b: int, m: int)
    requires m > 0
    ensures (a * b) % m == ((a % m) * (b % m)) % m
  {
    var qa, ra, qb, rb := a / m, a % m, b / m, b % m;
    var k := qa * qb * m + qa * rb + ra * qb;
    calc {
      a * b;
      (m * qa + ra) * (m * qb + rb);
      ra * rb + m * k;
    }
    ModShift(ra * rb, k, m);
  }

  /** Reducing one factor first does not change the residue of a product. */
  lemma MulModLeft(a: int, b: int, m: int)
    requires m > 0
    ensures ((a % m) * b) % m == (a * b) % m
  {
    MulMod(a, b, m);
    MulMod(a % m, b, m);
    ModOfMod(a, m);
  }

  lemma MulModRight(a: int, b: int, m: int)
    requires m > 0
    ensures (a * (b % m)) % m == (a * b) % m
  {
    MulModLeft(b, a, m);
  }

  /** Congruence modulo `m` is preserved by sums, differences and products. */
  lemma CongAdd(x1: int, y1: int, x2: int, y2: int, m: int)
    requires m > 0 && x1 % m == y1 % m && x2 % m == y2 % m
    ensures (x1 + x2) % m == (y1 + y2) % m
  {
    AddMod(x1, x2, m);
    AddMod(y1, y2, m);
  }

  lemma CongSub(x1: int, y1: int, x2: int, y2: int, m: int)
    requires m > 0 && x1 % m == y1 % m && x2 % m == y2 % m
    ensures (x1 - x2) % m == (y1 - y2) % m
  {
    SubMod(x1, x2, m);
    SubMod(y1, y2, m);
  }

  lemma CongMul(x1: int, y1: int, x2: int, y2: int, m: int)
    requires m > 0 && x1 % m == y1 % m && x2 % m == y2 % m
    ensures (x1 * x2) % m == (y1 * y2) % m
  {
    MulMod(x1, x2, m);
    MulMod(y1, y2, m);
  }

  /** The quotient `x / m` by repeated subtraction, kept recursive for the
      same reason as `Residue`; `QuotDiv` connects it to `/`. */
  function Quot(x: nat, m: nat): (q: nat)
    requires m >= 1
    ensures q <= x
    decreases x
  {
    if x < m then 0 else 1 + Quot(x - m, m)
  }

  lemma {:induction false} QuotDiv(x: nat, m: nat)
    requires m >= 1
    ensures Quot(x, m) == x / m
    decreases x
  {
    if x < m {
      DivModUnique(x, m, 0, x);
    } else {
      QuotDiv(x - m, m);
      var q, r := (x - m) / m, (x - m) % m;
      assert x - m == m * q + r;
      DivModUnique(x, m, q + 1, r);
    }
  }

  // ---------------------------------------------------------------------
  /** The least non-negative residue of `x` modulo `m`, by repeated
      subtraction or addition of `m`. Being recursive, it is unfolded only
      where a proof asks for it; `ResidueMod` connects it to `%`. */
  function Residue(x: int, m: nat): (r: nat)
    requires m >= 1
    ensures r < m
    decreases if x < 0 then m - x else x
  {
    if 0 <= x < m then x else if x >= m then Residue(x - m, m) else Residue(x + m, m)
  }

  lemma {:induction false} ResidueMod(x: int, m: nat)
    requires m >= 1
    ensures Residue(x, m) == x % m
    decreases if x < 0 then m - x else x
  {
    if 0 <= x < m {
      DivModUnique(x, m, 0, x);
    } else if x >= m {
      ResidueMod(x - m, m);
      ModShift(x - m, 1, m);
    } else {
      ResidueMod(x + m, m);
      ModShift(x, 1, m);
    }
  }

  // Divisibility
  // ---------------------------------------------------------------------

  predicate Divides(d: int, n: int)
  {
    d > 0 && n % d == 0
  }

  /** Integer combinations of multiples of `d` are multiples of `d`. */
  lemma DividesLinear(d: int, x: int, y: int, u: int, v: int)
    requires Divides(d, x) && Divides(d, y)
    ensures Divides(d, u * x + v * y)
  {
    var kx, ky := x / d, y / d;
    assert x == d * kx;
    assert y == d * ky;
    calc {
      u * x + v * y;
      u * (d * kx) + v * (d * ky);
      d * (u * kx + v * ky);
    }
    MulModZero(d, u * kx + v * ky);
  }

  lemma DividesMul(d: int, x: int, c: int)
    requires Divides(d, x)
    ensures Divides(d, x * c)
  {
    DividesLinear(d, x, x, c, 0);
  }

  /** A positive multiple of `d` is at least `d`. */
  lemma DivisorAtMost(d: int, x: int)
    requires Divides(d, x) && x > 0
    ensures d <= x
  {
    var k := x / d;
    assert x == d * k;
    MulTrichotomy(d, k);
  }

  // ---------------------------------------------------------------------
  // Powers
  // ---------------------------------------------------------------------

  function Pow(b: nat, e: nat): nat
  {
    if e == 0 then 1 else b * Pow(b, e - 1)
  }

  lemma {:induction false} PowAdd(b: nat, e1: nat, e2: nat)
    ensures Pow(b, e1 + e2) == Pow(b, e1) * Pow(b, e2)
    decreases e1
  {
    if e1 > 0 {
      PowAdd(b, e1 - 1, e2);
      assert Pow(b, e1 + e2) == b * Pow(b, e1 - 1 + e2);
    }
  }

  lemma {:induction false} PowMul(b: nat, e1: nat, e2: nat)
    ensures Pow(b, e1 * e2) == Pow(Pow(b, e1), e2)
    decreases e2
  {
    if e2 > 0 {
      PowMul(b, e1, e2 - 1);
      assert e1 * e2 == e1 * (e2 - 1) + e1;
      PowAdd(b, e1 * (e2 - 1), e1);
    }
  }

  lemma {:induction false} PowPositive(b: nat, e: nat)
    requires b > 0
    ensures Pow(b, e) > 0
    decreases e
  {
    if e > 0 {
      PowPositive(b, e - 1);
    }
  }

  /** Reducing the base first does not change the residue of a power. */
  lemma {:induction false} PowModBase(b: nat, e: nat, m: nat)
    requires m > 0
    ensures Pow(b % m, e) % m == Pow(b, e) % m
    decreases e
  {
    if e > 0 {
      PowModBase(b, e - 1, m);
      calc {
        Pow(b % m, e) % m;
        ((b % m) * Pow(b % m, e - 1)) % m;
        { MulModRight(b % m, Pow(b % m, e - 1), m); }
        ((b % m) * (Pow(b % m, e - 1) % m)) % m;
        ((b % m) * (Pow(b, e - 1) % m)) % m;
        { MulModRight(b % m, Pow(b, e - 1), m); }
        ((b % m) * Pow(b, e - 1)) % m;
        { MulModLeft(b, Pow(b, e - 1), m); }
        (b * Pow(b, e - 1)) % m;
      }
    }
  }

  /** Squaring the base halves the exponent: the step of square-and-multiply. */
  lemma SquareStep(b: nat, e: nat, m: nat)
    requires m > 0
    ensures Pow((b * b) % m, e / 2) * (if e % 2 == 1 then b else 1) % m == Pow(b, e) % m
  {
    var h, odd := e / 2, if e % 2 == 1 then b else 1;
    var p1, p2 := Pow((b * b) % m, h), Pow(b, 2 * h);
    assert Pow(b * b, h) == p2 by {
      PowMul(b, 2, h);
      assert Pow(b, 1) == b * Pow(b, 0) == b;
      assert Pow(b, 2) == b * Pow(b, 1);
    }
    assert p1 % m == p2 % m by {
      PowModBase(b * b, h, m);
    }
    assert Pow(b, e) == p2 * odd by {
      assert e == 2 * h + e % 2;
      PowAdd(b, 2 * h, e % 2);
      assert Pow(b, e % 2) == odd;
    }
    MulModLeft(p1, odd, m);
    MulModLeft(p2, odd, m);
  }

  // ---------------------------------------------------------------------
  // Greatest common divisor
  // ---------------------------------------------------------------------

  /** Euclid's algorithm on natural numbers; `Gcd(0, 0) == 0`. */
  function Gcd(a: nat, b: nat): nat
    decreases b
  {
    if b == 0 then a else Gcd(b, a % b)
  }

  lemma {:induction false} GcdDivides(a: nat, b: nat)
    requires a > 0 || b > 0
    ensures Divides(Gcd(a, b), a) && Divides(Gcd(a, b), b)
    decreases b
  {
    if b == 0 {
      MulModZero(a, 1);
      assert 0 % a == 0;
    } else {
      var g := Gcd(b, a % b);
      GcdDivides(b, a % b);
      assert a == (a / b) * b + a % b;
      DividesLinear(g, b, a % b, a / b, 1);
    }
  }

  /** The Bezout coefficients computed alongside Euclid's algorithm. */
  lemma {:induction false} Bezout(a: nat, b: nat) returns (x: int, y: int)
    ensures x * a + y * b == Gcd(a, b)
    decreases b
  {
    if b == 0 {
      x, y := 1, 0;
    } else {
      var x', y' := Bezout(b, a % b);
      var q := a / b;
      assert a % b == a - q * b;
      x, y := y', x' - y' * q;
      calc {
        x * a + y * b;
        y' * a + x' * b - y' * q * b;
        x' * b + y' * (a - q * b);
        x' * b + y' * (a % b);
      }
    }
  }

  lemma CommonDivisorDividesGcd(d: nat, a: nat, b: nat)
    requires Divides(d, a) && Divides(d, b)
    ensures Divides(d, Gcd(a, b))
  {
    var x, y := Bezout(a, b);
    DividesLinear(d, a, b, x, y);
  }

  /** Gauss's lemma: a divisor of `a * b` coprime to `a` divides `b`. */
  lemma Gauss(m: nat, a: nat, b: int)
    requires m > 0 && Gcd(m, a) == 1 && Divides(m, a * b)
    ensures Divides(m, b)
  {
    var x, y := Bezout(m, a);
    MulModZero(m, b);
    DividesLinear(m, m * b, a * b, x, y);
    Recombine(m, a, b, x, y);
  }

  lemma Recombine(m: int, a: int, b: int, x: int, y: int)
    requires x * m + y * a == 1
    ensures x * (m * b) + y * (a * b) == b
  {
    calc {
      x * (m * b) + y * (a * b);
      (x * m) * b + (y * a) * b;
      (x * m + y * a) * b;
    }
  }

  // ---------------------------------------------------------------------
  // Primes
  // ---------------------------------------------------------------------

  ghost predicate IsPrime(p: nat)
  {
    p >= 2 && forall d :: 2 <= d < p ==> !Divides(d, p)
  }

  lemma PrimeCoprime(p: nat, a: nat)
    requires IsPrime(p) && a % p != 0
    ensures Gcd(p, a) == 1
  {
    GcdDivides(p, a);
    var g := Gcd(p, a);
    DivisorAtMost(g, p);
  }

  /** Euclid's lemma. */
  lemma EuclidPrime(p: nat, a: nat, b: nat)
    requires IsPrime(p) && Divides(p, a * b)
    ensures Divides(p, a) || Divides(p, b)
  {
    if a % p != 0 {
      PrimeCoprime(p, a);
      Gauss(p, a, b);
    }
  }

  lemma DistinctPrimesCoprime(p: nat, q: nat)
    requires IsPrime(p) && IsPrime(q) && p != q
    ensures q % p != 0
  {
    if q % p == 0 {
      DivisorAtMost(p, q);
      assert Divides(p, q);
    }
  }

  // ---------------------------------------------------------------------
  // Binomial coefficients and Fermat's little theorem
  // ---------------------------------------------------------------------

  /** Pascal's triangle. */
  function Binom(n: nat, k: nat): nat
  {
    if k == 0 then 1 else if n == 0 then 0 else Binom(n - 1, k - 1) + Binom(n - 1, k)
  }

  lemma {:induction false} BinomAbove(n: nat, k: nat)
    requires k > n
    ensures Binom(n, k) == 0
    decreases n
  {
    if n > 0 {
      BinomAbove(n - 1, k - 1);
      BinomAbove(n - 1, k);
    }
  }

  lemma {:induction false} BinomDiagonal(n: nat)
    ensures Binom(n, n) == 1
    decreases n
  {
    if n > 0 {
      BinomDiagonal(n - 1);
      BinomAbove(n - 1, n);
    }
  }

  /** The absorption identity `k * C(n, k) == n * C(n-1, k-1)`. */
  lemma {:induction false} Absorption(n: nat, k: nat)
    requires n >= 1 && k >= 1
    ensures k * Binom(n, k) == n * Binom(n - 1, k - 1)
    decreases n
  {
    if n == 1 {
      if k > 1 {
        BinomAbove(0, k - 1);
        BinomAbove(0, k);
      }
    } else if k == 1 {
      Absorption(n - 1, 1);
      assert Binom(n, 1) == Binom(n - 1, 0) + Binom(n - 1, 1);
    } else {
      var a, c := Binom(n - 1, k - 1), Binom(n - 1, k);
      var d, e := Binom(n - 2, k - 2), Binom(n - 2, k - 1);
      assert Binom(n, k) == a + c;
      assert a == d + e;
      Absorption(n - 1, k);
      Absorption(n - 1, k - 1);
      AbsorptionRegroup(n, k, a, c, d, e);
    }
  }

  lemma AbsorptionRegroup(n: int, k: int, a: int, c: int, d: int, e: int)
    requires a == d + e && k * c == (n - 1) * e && (k - 1) * a == (n - 1) * d
    ensures k * (a + c) == n * a
  {
    calc {
      k * (a + c);
      (k - 1) * a + a + k * c;
      (n - 1) * d + a + (n - 1) * e;
      (n - 1) * (d + e) + a;
      n * a;
    }
  }

  lemma PrimeDividesBinom(p: nat, k: nat)
    requires IsPrime(p) && 0 < k < p
    ensures Divides(p, Binom(p, k))
  {
    Absorption(p, k);
    MulModZero(p, Binom(p - 1, k - 1));
    DivModUnique(k, p, 0, k);
    PrimeCoprime(p, k);
    Gauss(p, k, Binom(p, k));
  }

  /** `sum_{i <= k} C(n, i) * x^i`. */
  function BinomSum(n: nat, x: nat, k: nat): nat
  {
    Binom(n, k) * Pow(x, k) + if k == 0 then 0 else BinomSum(n, x, k - 1)
  }

  lemma {:induction false} BinomSumPascal(n: nat, x: nat, k: nat)
    requires k >= 1
    ensures BinomSum(n + 1, x, k) == BinomSum(n, x, k) + x * BinomSum(n, x, k - 1)
    decreases k
  {
    var p, p1 := Pow(x, k), Pow(x, k - 1);
    assert p == x * p1;
    var ca, cb := Binom(n, k - 1), Binom(n, k);
    assert Binom(n + 1, k) == ca + cb;
    if k >= 2 {
      BinomSumPascal(n, x, k - 1);
      var s1, s2 := BinomSum(n, x, k - 1), BinomSum(n, x, k - 2);
      assert s1 == ca * p1 + s2;
      calc {
        BinomSum(n + 1, x, k);
        (ca + cb) * p + BinomSum(n + 1, x, k - 1);
        (ca + cb) * p + s1 + x * s2;
        { PascalRegroup(ca, cb, p, p1, x, s1, s2); }
        cb * p + s1 + x * (ca * p1 + s2);
      }
    } else {
      assert p1 == 1;
    }
  }

  lemma PascalRegroup(ca: int, cb: int, p: int, p1: int, x: int, s1: int, s2: int)
    requires p == x * p1
    ensures (ca + cb) * p + s1 + x * s2 == cb * p + s1 + x * (ca * p1 + s2)
  {
    assert ca * p == x * (ca * p1);
  }

  /** The binomial theorem for `(x + 1)^n`. */
  lemma {:induction false} BinomialTheorem(n: nat, x: nat)
    ensures BinomSum(n, x, n) == Pow(x + 1, n)
    decreases n
  {
    if n > 0 {
      var s := BinomSum(n - 1, x, n - 1);
      BinomialTheorem(n - 1, x);
      BinomAbove(n - 1, n);
      assert BinomSum(n - 1, x, n) == s;
      BinomSumPascal(n - 1, x, n);
      MulSucc(x, s);
    }
  }

  lemma MulSucc(x: int, s: int)
    ensures (x + 1) * s == s + x * s
  {
  }

  /** Every term strictly between the first and the last is a multiple of `p`. */
  lemma {:induction false} MiddleTerms(p: nat, x: nat, k: nat)
    requires IsPrime(p) && k < p
    ensures BinomSum(p, x, k) % p == 1
    decreases k
  {
    DivModUnique(1, p, 0, 1);
    if k == 0 {
      assert BinomSum(p, x, 0) == 1;
    } else {
      var t, rest := Binom(p, k) * Pow(x, k), BinomSum(p, x, k - 1);
      assert BinomSum(p, x, k) == t + rest;
      MiddleTerms(p, x, k - 1);
      PrimeDividesBinom(p, k);
      DividesMul(p, Binom(p, k), Pow(x, k));
      AddMod(t, rest, p);
    }
  }

  /** `a^p == a (mod p)` for prime `p`, by induction on `a`. */
  lemma {:induction false} FermatPow(p: nat, a: nat)
    requires IsPrime(p)
    ensures Pow(a, p) % p == a % p
    decreases a
  {
    if a > 0 {
      var b := a - 1;
      var pb, mid := Pow(b, p), BinomSum(p, b, p - 1);
      FermatPow(p, b);
      BinomialTheorem(p, b);
      BinomDiagonal(p);
      assert BinomSum(p, b, p) == pb + mid;
      MiddleTerms(p, b, p - 1);
      AddMod(pb, mid, p);
      DivModUnique(1, p, 0, 1);
      AddMod(b, 1, p);
    }
  }

  lemma CongruentProduct(p: nat, a: int, q: int)
    requires p > 0 && (a * q) % p == a % p
    ensures Divides(p, a * (q - 1))
  {
    SubMod(a * q, a, p);
    assert a * (q - 1) == a * q - a;
  }

  /** Fermat's little theorem. */
  lemma FermatLittle(p: nat, a: nat)
    requires IsPrime(p) && a % p != 0
    ensures Pow(a, p - 1) % p == 1
  {
    var q := Pow(a, p - 1);
    assert Pow(a, p) == a * q;
    FermatPow(p, a);
    CongruentProduct(p, a, q);
    PrimeCoprime(p, a);
    Gauss(p, a, q - 1);
    var t := Quotient(q - 1, p);
    DivModUnique(q, p, t, 1);
  }

  // ---------------------------------------------------------------------
  // Products of moduli and the Chinese Remainder Theorem
  // ---------------------------------------------------------------------

  function Product(ms: seq<nat>): nat
  {
    if ms == [] then 1 else ms[0] * Product(ms[1..])
  }

  /** The product of all entries but the one at `i`. */
  function ProductExcept(ms: seq<nat>, i: nat): nat
    requires i < |ms|
    decreases i
  {
    if i == 0 then Product(ms[1..]) else ms[0] * ProductExcept(ms[1..], i - 1)
  }

  ghost predicate DistinctPrimes(ms: seq<nat>)
  {
    (forall i :: 0 <= i < |ms| ==> IsPrime(ms[i])) &&
    (forall i, j :: 0 <= i < j < |ms| ==> ms[i] != ms[j])
  }

  lemma {:induction false} ProductSplit(ms: seq<nat>, i: nat)
    requires i < |ms|
    ensures Product(ms) == ms[i] * ProductExcept(ms, i)
    decreases i
  {
    if i > 0 {
      ProductSplit(ms[1..], i - 1);
      assert ms[1..][i - 1] == ms[i];
    }
  }

  lemma {:induction false} FactorDividesProduct(ms: seq<nat>, j: nat)
    requires j < |ms| && ms[j] > 0
    ensures Divides(ms[j], Product(ms))
    decreases j
  {
    if j == 0 {
      MulModZero(ms[0], Product(ms[1..]));
    } else {
      FactorDividesProduct(ms[1..], j - 1);
      assert ms[1..][j - 1] == ms[j];
      DividesMul(ms[j], Product(ms[1..]), ms[0]);
    }
  }

  /** Every other modulus divides `M / m_i`. */
  lemma {:induction false} FactorDividesProductExcept(ms: seq<nat>, i: nat, j: nat)
    requires i < |ms| && j < |ms| && i != j && ms[j] > 0
    ensures Divides(ms[j], ProductExcept(ms, i))
    decreases i
  {
    if i == 0 {
      FactorDividesProduct(ms[1..], j - 1);
      assert ms[1..][j - 1] == ms[j];
    } else if j == 0 {
      MulModZero(ms[0], ProductExcept(ms[1..], i - 1));
    } else {
      FactorDividesProductExcept(ms[1..], i - 1, j - 1);
      assert ms[1..][j - 1] == ms[j];
      DividesMul(ms[j], ProductExcept(ms[1..], i - 1), ms[0]);
    }
  }

  lemma {:induction false} PrimeNotDividingProduct(p: nat, qs: seq<nat>)
    requires IsPrime(p) && forall k :: 0 <= k < |qs| ==> IsPrime(qs[k]) && qs[k] != p
    ensures Product(qs) % p != 0
    decreases |qs|
  {
    if qs == [] {
      assert Product(qs) == 1;
    } else {
      PrimeNotDividingProduct(p, qs[1..]);
      DistinctPrimesCoprime(p, qs[0]);
      if Divides(p, qs[0] * Product(qs[1..])) {
        EuclidPrime(p, qs[0], Product(qs[1..]));
      }
    }
  }

  /** No modulus of a base of distinct primes divides `M / m_i`. */
  lemma {:induction false} PrimeNotDividingProductExcept(ms: seq<nat>, i: nat)
    requires i < |ms| && DistinctPrimes(ms)
    ensures ProductExcept(ms, i) % ms[i] != 0
    decreases i
  {
    if i == 0 {
      PrimeNotDividingProduct(ms[0], ms[1..]);
    } else {
      PrimeNotDividingProductExcept(ms[1..], i - 1);
      assert ms[1..][i - 1] == ms[i];
      DistinctPrimesCoprime(ms[i], ms[0]);
      if Divides(ms[i], ms[0] * ProductExcept(ms[1..], i - 1)) {
        EuclidPrime(ms[i], ms[0], ProductExcept(ms[1..], i - 1));
      }
    }
  }

  /** Uniqueness in the Chinese Remainder Theorem: a multiple of every
      modulus of a base of distinct primes is a multiple of their product. */
  lemma {:induction false} CrtUnique(ms: seq<nat>, d: int)
    requires DistinctPrimes(ms)
    requires forall i :: 0 <= i < |ms| ==> Divides(ms[i], d)
    ensures Divides(Product(ms), d)
    decreases |ms|
  {
    if ms == [] {
      assert Product(ms) == 1;
    } else {
      var m0, rest := ms[0], ms[1..];
      assert Divides(m0, d);
      forall i | 0 <= i < |rest| ensures Divides(rest[i], d) {
        assert rest[i] == ms[i + 1];
      }
      CrtUnique(rest, d);
      var pr := Product(rest);
      var k := Quotient(d, pr);
      PrimeNotDividingProduct(m0, rest);
      PrimeCoprime(m0, pr);
      Gauss(m0, pr, k);
      var j := Quotient(k, m0);
      assert d == pr * (m0 * j);
      MulRegroup(pr, m0, j);
      PrimeFactorsPositive(ms);
      MulModZero(m0 * pr, j);
    }
  }

  lemma MulRegroup(a: int, b: int, c: int)
    ensures a * (b * c) == (b * a) * c
  {
  }

  /** The exact quotient of a multiple. */
  function Quotient(n: int, d: int): (q: int)
    requires Divides(d, n)
    ensures n == d * q
  {
    DivModUnique(n, d, n / d, 0);
    n / d
  }

  lemma PrimeFactorsPositive(ms: seq<nat>)
    requires DistinctPrimes(ms)
    ensures Product(ms) > 0
  {
    ProductPositive(ms);
  }

  lemma {:induction false} ProductPositive(ms: seq<nat>)
    requires forall i :: 0 <= i < |ms| ==> ms[i] > 0
    ensures Product(ms) > 0
    decreases |ms|
  {
    if ms != [] {
      ProductPositive(ms[1..]);
      assert ms[0] > 0;
    }
  }

  // ---------------------------------------------------------------------
  // Sequences

  /** Writing entry `i` of `goal` after a prefix of `goal` extends the
      prefix by one. */
  lemma PrefixGrows(prev: seq<nat>, cur: seq<nat>, goal: seq<nat>, i: nat)
    requires i < |prev| <= |goal| && prev[..i] == goal[..i] && cur == prev[i := goal[i]]
    ensures cur[..i + 1] == goal[..i + 1]
  {
    assert cur[..i + 1] == prev[..i] + [goal[i]];
    assert goal[..i + 1] == goal[..i] + [goal[i]];
  }
}
