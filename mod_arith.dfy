/** Facts about integer division, congruences and powers of three that the
    3-adic ring proofs are built from.  Dafny's `/` and `%` on `int` are
    Euclidean; every operand in this project that they are applied to is
    non-negative except in `Cong`, where only equality of residues matters. */
module ModArith {

  /** 3^n. */
  function Pow3(n: nat): (r: nat)
    ensures r >= 1
  {
    if n == 0 then 1 else 3 * Pow3(n - 1)
  }

  /** a is congruent to b modulo m. */
  predicate Cong(a: int, b: int, m: int)
    requires m > 0
  {
    a % m == b % m
  }

  lemma MulAtLeast(k: int, m: int)
    requires k >= 1 && m > 0
    ensures k * m >= m
  {
    assert k * m == (k - 1) * m + m;
  }

  lemma MulNonNegative(a: int, b: int)
    requires a >= 0 && b >= 0
    ensures a * b >= 0
  {
    if a > 0 && b > 0 {
      MulAtLeast(a, b);
    }
  }

  lemma MulStrictBound(a: int, b: int, m: int)
    requires 0 <= a < m && 0 <= b < m
    ensures a * b < m * m
    ensures a * b <= (m - 1) * (m - 1)
  {
    MulNonNegative(m - 1 - a, b);
    MulNonNegative(m - 1 - b, m - 1);
    assert a * b <= (m - 1) * b;
    assert (m - 1) * b <= (m - 1) * (m - 1);
  }

  /** Quotient and remainder are determined by the division identity. */
  lemma DivModUnique(a: int, m: int, q: int, r: int)
    requires m > 0 && 0 <= r < m && a == q * m + r
    ensures a / m == q && a % m == r
  {
    var q', r' := a / m, a % m;
    assert a == q' * m + r';
    assert (q - q') * m == r' - r;
    if q > q' {
      MulAtLeast(q - q', m);
    } else if q < q' {
      MulAtLeast(q' - q, m);
    }
  }

  /** Adding a multiple of m does not change the residue. */
  lemma ModAddMultiple(a: int, k: int, m: int)
    requires m > 0
    ensures (a + k * m) % m == a % m
  {
    var q := a / m;
    assert a == q * m + a % m;
    assert a + k * m == (q + k) * m + a % m;
    DivModUnique(a + k * m, m, q + k, a % m);
  }

  lemma MultipleIsZeroMod(k: int, m: int)
    requires m > 0
    ensures (k * m) % m == 0
  {
    ModAddMultiple(0, k, m);
  }

  /** A congruence is a difference that is a multiple of the modulus. */
  lemma CongWitness(a: int, b: int, m: int)
    requires m > 0 && Cong(a, b, m)
    ensures a == b + ((a - b) / m) * m
    ensures (a - b) % m == 0
  {
    var qa, qb := a / m, b / m;
    assert a == qa * m + a % m;
    assert b == qb * m + b % m;
    assert a - b == (qa - qb) * m;
    DivModUnique(a - b, m, qa - qb, 0);
  }

  lemma CongFromWitness(a: int, b: int, k: int, m: int)
    requires m > 0 && a == b + k * m
    ensures Cong(a, b, m)
  {
    ModAddMultiple(b, k, m);
  }

  lemma CongMod(a: int, m: int)
    requires m > 0
    ensures Cong(a % m, a, m)
  {
    CongFromWitness(a % m, a, -(a / m), m);
  }

  lemma CongAdd(a: int, b: int, c: int, d: int, m: int)
    requires m > 0 && Cong(a, b, m) && Cong(c, d, m)
    ensures Cong(a + c, b + d, m)
  {
    CongWitness(a, b, m);
    CongWitness(c, d, m);
    var s, t := (a - b) / m, (c - d) / m;
    assert a + c == b + d + (s + t) * m;
    CongFromWitness(a + c, b + d, s + t, m);
  }

  lemma CongNeg(a: int, b: int, m: int)
    requires m > 0 && Cong(a, b, m)
    ensures Cong(-a, -b, m)
  {
    CongWitness(a, b, m);
    var s := (a - b) / m;
    assert -a == -b + (-s) * m;
    CongFromWitness(-a, -b, -s, m);
  }

  lemma CongMul(a: int, b: int, c: int, d: int, m: int)
    requires m > 0 && Cong(a, b, m) && Cong(c, d, m)
    ensures Cong(a * c, b * d, m)
  {
    CongWitness(a, b, m);
    CongWitness(c, d, m);
    var s, t := (a - b) / m, (c - d) / m;
    calc {
      a * c;
      (b + s * m) * (d + t * m);
      b * d + (s * d + b * t + s * t * m) * m;
    }
    CongFromWitness(a * c, b * d, s * d + b * t + s * t * m, m);
  }

  /** A congruence modulo m holds modulo every divisor of m. */
  lemma CongWeaken(a: int, b: int, m: int, d: int)
    requires m > 0 && d > 0 && m % d == 0 && Cong(a, b, m)
    ensures Cong(a, b, d)
  {
    CongWitness(a, b, m);
    CongWitness(m, 0, d);
    var s, e := (a - b) / m, m / d;
    assert a == b + (s * e) * d;
    CongFromWitness(a, b, s * e, d);
  }

  /** Scaling a congruence modulo m by m gives one modulo m * m. */
  lemma CongScale(a: int, b: int, m: int)
    requires m > 0 && Cong(a, b, m)
    ensures Cong(m * a, m * b, m * m)
  {
    CongWitness(a, b, m);
    var s := (a - b) / m;
    assert m * a == m * b + s * (m * m);
    MulAtLeast(m, m);
    CongFromWitness(m * a, m * b, s, m * m);
  }

  lemma DividesProduct(n: int, c: int, d: int)
    requires d > 0 && n % d == 0
    ensures (n * c) % d == 0
  {
    CongWitness(n, 0, d);
    var s := n / d;
    assert n * c == (s * c) * d;
    MultipleIsZeroMod(s * c, d);
  }

  lemma Pow3Add(a: nat, b: nat)
    ensures Pow3(a + b) == Pow3(a) * Pow3(b)
    decreases a
  {
    if a > 0 {
      Pow3Add(a - 1, b);
    }
  }

  /** A smaller power of three divides a larger one. */
  lemma Pow3Divides(a: nat, b: nat)
    requires a <= b
    ensures Pow3(b) % Pow3(a) == 0
    ensures Pow3(a) <= Pow3(b)
    ensures Pow3(b) == Pow3(a) * Pow3(b - a)
  {
    Pow3Add(a, b - a);
    FactorDivides(Pow3(a), Pow3(b - a));
  }

  lemma FactorDivides(p: int, q: int)
    requires p >= 1 && q >= 1
    ensures (p * q) % p == 0 && p <= p * q
  {
    MultipleIsZeroMod(q, p);
    MulAtLeast(q, p);
    assert q * p == p * q;
  }

  /** Divisibility by 3^b implies divisibility by 3^a for a <= b. */
  lemma Pow3DividesWeaken(x: int, a: nat, b: nat)
    requires a <= b && x % Pow3(b) == 0
    ensures x % Pow3(a) == 0
  {
    Pow3Divides(a, b);
    CongWeaken(x, 0, Pow3(b), Pow3(a));
  }

  lemma Pow3Odd(n: nat)
    ensures Pow3(n) % 2 == 1
  {
    if n > 0 {
      Pow3Odd(n - 1);
      CongMul(3, 1, Pow3(n - 1), 1, 2);
    }
  }

  lemma Pow3Values()
    ensures Pow3(5) == 243
    ensures Pow3(10) == 59049
    ensures Pow3(20) == 3486784401
    ensures Pow3(40) == 12157665459056928801
  {
    Pow3Add(5, 5);
    Pow3Add(10, 10);
    Pow3Add(20, 20);
  }

  /** 3 is prime: a product of two numbers prime to 3 is prime to 3. */
  lemma ThreeIsPrime(a: int, b: int)
    requires a % 3 != 0 && b % 3 != 0
    ensures (a * b) % 3 != 0
  {
    CongMod(a, 3);
    CongMod(b, 3);
    CongMul(a % 3, a, b % 3, b, 3);
  }

  /** Multiplying a congruence by a common factor and reducing keeps it. */
  lemma CongProductMod(u: int, s: int, t: int, m: int)
    requires m > 0 && Cong(s, t, m)
    ensures Cong((u * s) % m, u * t, m)
  {
    CongMul(u, u, s, t, m);
    CongMod(u * s, m);
  }

  /** An additive inverse modulo m is congruent to the negation. */
  lemma CongNegation(w: int, mw: int, m: int)
    requires m > 0 && (w + mw) % m == 0
    ensures Cong(mw, -w, m)
  {
    CongWitness(w + mw, 0, m);
    CongFromWitness(mw, -w, (w + mw) / m, m);
  }

  /** A cross product only matters modulo s once it is scaled by s and
      reduced modulo s * s. */
  lemma LimbCross(a: int, b: int, s: int)
    requires s > 0
    ensures Cong(s * ((a * (b % s)) % s), s * (a * b), s * s)
  {
    CongMod(b, s);
    CongProductMod(a, b % s, b, s);
    CongScale((a * (b % s)) % s, a * b, s);
  }

  lemma LimbExpand(x: int, y: int, x0: int, x1: int, y0: int, y1: int, s: int)
    requires x == x0 + s * x1 && y == y0 + s * y1
    ensures x * y == x0 * y0 + s * (x0 * y1) + s * (y0 * x1) + (x1 * y1) * (s * s)
  {
  }

  lemma LimbCombine(p: int, low: int, c1: int, c2: int, d1: int, d2: int, h: int, m: int)
    requires m > 0 && p == low + d1 + d2 + h * m && Cong(c1, d1, m) && Cong(c2, d2, m)
    ensures Cong(low + c1 + c2, p, m)
  {
    CongAdd(c1, d1, c2, d2, m);
    CongAdd(low, low, c1 + c2, d1 + d2, m);
    CongFromWitness(p, low + d1 + d2, h, m);
  }

  /** The limb identity behind a product computed from halves of size s:
      writing x = x0 + s * x1 and y = y0 + s * y1, modulo s * s the
      high-by-high product vanishes and each cross product only matters
      modulo s. */
  lemma LimbProduct(x: int, y: int, s: int)
    requires s > 0
    ensures
      var x0, x1, y0, y1 := x % s, x / s, y % s, y / s;
      Cong(x0 * y0 + s * ((x0 * (y1 % s)) % s) + s * ((y0 * (x1 % s)) % s), x * y, s * s)
  {
    var x0, x1, y0, y1 := x % s, x / s, y % s, y / s;
    LimbSplit(x, s);
    LimbSplit(y, s);
    LimbParts(x, y, x0, x1, y0, y1, s);
  }

  /** A number is its low limb plus s times its high limb. */
  lemma LimbSplit(x: int, s: int)
    requires s > 0
    ensures x == x % s + s * (x / s)
  {
  }

  lemma LimbParts(x: int, y: int, x0: int, x1: int, y0: int, y1: int, s: int)
    requires s > 0 && x == x0 + s * x1 && y == y0 + s * y1
    ensures Cong(x0 * y0 + s * ((x0 * (y1 % s)) % s) + s * ((y0 * (x1 % s)) % s), x * y, s * s)
  {
    MulAtLeast(s, s);
    LimbCross(x0, y1, s);
    LimbCross(y0, x1, s);
    LimbExpand(x, y, x0, x1, y0, y1, s);
    LimbCombine(x * y, x0 * y0, s * ((x0 * (y1 % s)) % s), s * ((y0 * (x1 % s)) % s),
                s * (x0 * y1), s * (y0 * x1), x1 * y1, s * s);
  }

  lemma NewtonExpand(x: int, u: int, t: int, e: int, q: int)
    requires x * u == 1 + e * q && t == u * (2 - x * u)
    ensures x * t == 1 - (e * e) * (q * q)
  {
    var p := x * u;
    assert x * t == p * (2 - p);
  }

  lemma SquaredErrorCong(v: int, e: int, qq: int, d: int, r: int)
    requires d > 0 && v == 1 - (e * e) * qq && qq == d * r
    ensures Cong(v, 1, d)
  {
    assert v == 1 + (-(e * e) * r) * d;
    CongFromWitness(v, 1, -(e * e) * r, d);
  }

  /** One Newton step for 1/x squares the error: if x * u = 1 + e then
      x * u * (2 - x * u) = 1 - e * e, so k known digits become 2k, up to the
      n digits the step is computed to. */
  lemma NewtonSquaresError(x: int, u: int, u': int, k: nat, n: nat)
    requires Cong(x * u, 1, Pow3(k))
    requires Cong(u', u * (2 - x * u), Pow3(n))
    ensures Cong(x * u', 1, Pow3(if 2 * k < n then 2 * k else n))
  {
    var k' := if 2 * k < n then 2 * k else n;
    var q, t := Pow3(k), u * (2 - x * u);
    CongWitness(x * u, 1, q);
    var e := (x * u - 1) / q;
    NewtonExpand(x, u, t, e, q);
    Pow3Add(k, k);
    Pow3Divides(k', 2 * k);
    SquaredErrorCong(x * t, e, q * q, Pow3(k'), Pow3(2 * k - k'));
    Pow3Divides(k', n);
    CongWeaken(u', t, Pow3(n), Pow3(k'));
    CongMul(x, x, u', t, Pow3(k'));
  }

  /** Dividing out one factor 3 removes exactly one from the count of
      factors 3. */
  lemma DivideOutThree(x: int, v: nat)
    requires x % 3 == 0
    ensures (x / 3) % Pow3(v) == 0 ==> x % Pow3(v + 1) == 0
    ensures x % Pow3(v + 2) == 0 ==> (x / 3) % Pow3(v + 1) == 0
  {
    var q := x / 3;
    assert x == 3 * q;
    if q % Pow3(v) == 0 {
      CongWitness(q, 0, Pow3(v));
      assert x == (q / Pow3(v)) * Pow3(v + 1);
      MultipleIsZeroMod(q / Pow3(v), Pow3(v + 1));
    }
    if x % Pow3(v + 2) == 0 {
      CongWitness(x, 0, Pow3(v + 2));
      assert 3 * q == (x / Pow3(v + 2)) * (3 * Pow3(v + 1));
      assert q == (x / Pow3(v + 2)) * Pow3(v + 1);
      MultipleIsZeroMod(x / Pow3(v + 2), Pow3(v + 1));
    }
  }

  lemma DivAtMost(x: int, d: int)
    requires x >= 0 && d >= 1
    ensures 0 <= x / d <= x
  {
    DivModUnique(x, d, x / d, x % d);
    if x / d > 0 {
      MulAtLeast(d, x / d);
    }
  }

  /** Reducing an intermediate sum does not change the final residue. */
  lemma SumOfReduced(p: int, q: int, t: int, m: int)
    requires m > 0
    ensures ((p + q) % m + t) % m == (p + q + t) % m
  {
    CongMod(p + q, m);
    CongAdd((p + q) % m, p + q, t, t, m);
  }

  /** Multiplying an exact quotient back restores a residue below m. */
  lemma ExactQuotient(x: int, p: int, m: int)
    requires 0 <= x < m && p > 0 && x % p == 0
    ensures ((x / p) * p) % m == x
  {
    assert (x / p) * p == x;
    SmallMod(x, m);
  }

  /** The product x * y computed from limbs of size s and two reduced sums. */
  lemma SmallMod(z: int, w: int)
    requires 0 <= z < w
    ensures z % w == z
  {
    DivModUnique(z, w, 0, z);
  }

  lemma ScaleBelow(s: int, t: int)
    requires 0 <= t < s
    ensures 0 <= s * t < s * s
  {
    MulNonNegative(s, t);
    assert s * s - s * t == s * (s - t);
    MulAtLeast(s - t, s);
  }

  /** The limb algorithm of a product modulo s * s on words of size w >= s * s:
      every partial product it forms is below s * s, so reducing it modulo w
      changes nothing, and the sum of the reduced pieces is the residue of
      the whole product. */
  lemma LimbMultiplyResidue(x: int, y: int, s: int, w: int, x0y1: int, y0x1: int, a: int, b: int, c: int, ab: int)
    requires 0 < s && s * s <= w
    requires x0y1 == ((x % s) * ((y / s) % s)) % w
    requires y0x1 == ((y % s) * ((x / s) % s)) % w
    requires a == ((x % s) * (y % s)) % w
    requires b == (s * (x0y1 % s)) % w
    requires c == (s * (y0x1 % s)) % w
    requires ab == (a + b) % (s * s)
    ensures (ab + c) % (s * s) == (x * y) % (s * s)
  {
    var x0, x1, y0, y1 := x % s, x / s, y % s, y / s;
    MulStrictBound(x0, y0, s);
    MulNonNegative(x0, y0);
    SmallMod(x0 * y0, w);
    MulStrictBound(x0, y1 % s, s);
    MulNonNegative(x0, y1 % s);
    SmallMod(x0 * (y1 % s), w);
    MulStrictBound(y0, x1 % s, s);
    MulNonNegative(y0, x1 % s);
    SmallMod(y0 * (x1 % s), w);
    ScaleBelow(s, x0y1 % s);
    SmallMod(s * (x0y1 % s), w);
    ScaleBelow(s, y0x1 % s);
    SmallMod(s * (y0x1 % s), w);
    LimbProductReduced(x, y, s);
  }

  lemma LimbProductReduced(x: int, y: int, s: int)
    requires s > 0
    ensures
      var x0, x1, y0, y1 := x % s, x / s, y % s, y / s;
      ((x0 * y0 + s * ((x0 * (y1 % s)) % s)) % (s * s) + s * ((y0 * (x1 % s)) % s)) % (s * s)
        == (x * y) % (s * s)
  {
    var x0, x1, y0, y1 := x % s, x / s, y % s, y / s;
    MulAtLeast(s, s);
    LimbProduct(x, y, s);
    SumOfReduced(x0 * y0, s * ((x0 * (y1 % s)) % s), s * ((y0 * (x1 % s)) % s), s * s);
  }

  /** One step u := u * (2 - x * u) computed with reduced products, a
      reduced negation mw of w and a reduced sum, is the exact step modulo m. */
  lemma ReducedNewtonStep(x: int, u: int, w: int, mw: int, s: int, r: int, m: int)
    requires m > 0
    requires w == (x * u) % m && (w + mw) % m == 0 && s == (2 + mw) % m && r == (u * s) % m
    ensures Cong(r, u * (2 - x * u), m)
  {
    CongNegation(w, mw, m);
    CongMod(x * u, m);
    CongNeg(w, x * u, m);
    CongMod(2 + mw, m);
    CongAdd(2, 2, mw, -(x * u), m);
    CongProductMod(u, s, 2 - x * u, m);
  }

  /** A reduced Newton step modulo 3^n doubles the number of digits of
      x * u - 1 known to vanish, up to n. */
  lemma NewtonIteration(x: int, u: int, w: int, mw: int, s: int, r: int, k: nat, m: int, n: nat)
    requires m == Pow3(n)
    requires w == (x * u) % m && (w + mw) % m == 0
    requires s == (2 + mw) % m && r == (u * s) % m
    requires Cong(x * u, 1, Pow3(k))
    ensures Cong(x * r, 1, Pow3(if 2 * k < n then 2 * k else n))
  {
    ReducedNewtonStep(x, u, w, mw, s, r, m);
    NewtonSquaresError(x, u, r, k, n);
  }

  /** The same for the step u * (2 + x * u) that inverts -x. */
  lemma NegatedNewtonIteration(x: int, u: int, w: int, s: int, r: int, k: nat, m: int, n: nat)
    requires m == Pow3(n)
    requires w == (x * u) % m && s == (2 + w) % m && r == (u * s) % m
    requires Cong((-x) * u, 1, Pow3(k))
    ensures Cong((-x) * r, 1, Pow3(if 2 * k < n then 2 * k else n))
  {
    ReducedNegatedNewtonStep(x, u, w, s, r, m);
    NewtonSquaresError(-x, u, r, k, n);
  }

  /** The same step for -x, as computed with u * (2 + x * u). */
  lemma ReducedNegatedNewtonStep(x: int, u: int, w: int, s: int, r: int, m: int)
    requires m > 0
    requires w == (x * u) % m && s == (2 + w) % m && r == (u * s) % m
    ensures Cong(r, u * (2 - (-x) * u), m)
  {
    CongMod(x * u, m);
    CongMod(2 + w, m);
    CongAdd(2, 2, w, x * u, m);
    assert 2 + x * u == 2 - (-x) * u;
    CongProductMod(u, s, 2 - (-x) * u, m);
  }

  /** If u inverts -x modulo m, then m - u inverts x. */
  lemma NegatedInverse(x: int, u: int, m: int)
    requires m > 1 && 0 <= u < m && Cong((-x) * u, 1, m)
    ensures u != 0 && (x * (m - u)) % m == 1
  {
    if u == 0 {
      assert false;
    }
    NegatedProduct(x, u, m);
    ModAddMultiple((-x) * u, x, m);
    DivModUnique(1, m, 0, 1);
  }

  lemma CongToOne(p: int, m: int)
    requires m > 1 && Cong(p, 1, m)
    ensures p % m == 1
  {
    DivModUnique(1, m, 0, 1);
  }

  lemma NegatedProduct(x: int, u: int, m: int)
    ensures x * (m - u) == (-x) * u + x * m
  {
  }

  lemma MulModAssoc(a: int, b: int, c: int, m: int)
    requires m > 0
    ensures (((a * b) % m) * c) % m == (a * ((b * c) % m)) % m
  {
    CongMod(a * b, m);
    CongMul((a * b) % m, a * b, c, c, m);
    CongMod(b * c, m);
    CongMul(a, a, (b * c) % m, b * c, m);
    assert (a * b) * c == a * (b * c);
  }

  lemma AddModAssoc(a: int, b: int, c: int, m: int)
    requires m > 0
    ensures ((a + b) % m + c) % m == (a + (b + c) % m) % m
  {
    CongMod(a + b, m);
    CongAdd((a + b) % m, a + b, c, c, m);
    CongMod(b + c, m);
    CongAdd(a, a, (b + c) % m, b + c, m);
  }

  lemma MulAddModDistrib(a: int, b: int, c: int, m: int)
    requires m > 0
    ensures (a * ((b + c) % m)) % m == ((a * b) % m + (a * c) % m) % m
  {
    CongMod(b + c, m);
    CongMul(a, a, (b + c) % m, b + c, m);
    CongMod(a * b, m);
    CongMod(a * c, m);
    CongAdd((a * b) % m, a * b, (a * c) % m, a * c, m);
    assert a * (b + c) == a * b + a * c;
  }

  /** Inverses modulo m are unique among canonical residues. */
  lemma InverseModUnique(x: int, u: int, v: int, m: int)
    requires m > 1 && 0 <= u < m && 0 <= v < m
    requires (x * u) % m == 1 && (x * v) % m == 1
    ensures u == v
  {
    DivModUnique(1, m, 0, 1);
    DivModUnique(u, m, 0, u);
    DivModUnique(v, m, 0, v);
    // u = u * (x * v) = (x * u) * v = v, all modulo m
    CongMul(u, u, x * v, 1, m);
    CongMul(x * u, 1, v, v, m);
    assert u * (x * v) == (x * u) * v;
  }

  /** A number with exactly v factors 3 is 3^v times a number prime to 3. */
  lemma ExactPowerFactor(x: int, v: nat)
    requires x % Pow3(v) == 0 && x % Pow3(v + 1) != 0
    ensures x == Pow3(v) * (x / Pow3(v)) && (x / Pow3(v)) % 3 != 0
  {
    CongWitness(x, 0, Pow3(v));
    var c := x / Pow3(v);
    if c % 3 == 0 {
      CongWitness(c, 0, 3);
      assert x == (c / 3) * Pow3(v + 1);
      MultipleIsZeroMod(c / 3, Pow3(v + 1));
      assert false;
    }
  }

  /** The exact number of factors 3 of a number is unique. */
  lemma ExactPowerUnique(x: int, v: nat, w: nat)
    requires x % Pow3(v) == 0 && x % Pow3(v + 1) != 0
    requires x % Pow3(w) == 0 && x % Pow3(w + 1) != 0
    ensures v == w
  {
    if v < w {
      Pow3DividesWeaken(x, v + 1, w);
    } else if w < v {
      Pow3DividesWeaken(x, w + 1, v);
    }
  }

  lemma MulCancel(p: int, a: int, b: int)
    requires p > 0 && p * a == p * b
    ensures a == b
  {
    if a < b {
      MulAtLeast(b - a, p);
    } else if b < a {
      MulAtLeast(a - b, p);
    }
  }

  lemma ProductOfFactors(a: int, b: int, p: int, q: int, ca: int, cb: int)
    requires a == p * ca && b == q * cb
    ensures a * b == (p * q) * (ca * cb)
  {
  }

  /** 3^w * c with c prime to 3 has exactly w factors 3. */
  lemma ExactPowerOfFactor(r: int, w: nat, c: int)
    requires r == Pow3(w) * c && c % 3 != 0
    ensures r % Pow3(w) == 0 && r % Pow3(w + 1) != 0
  {
    MultipleIsZeroMod(c, Pow3(w));
    if r % Pow3(w + 1) == 0 {
      CongWitness(r, 0, Pow3(w + 1));
      var k := r / Pow3(w + 1);
      assert Pow3(w) * c == Pow3(w) * (3 * k);
      MulCancel(Pow3(w), c, 3 * k);
      MultipleIsZeroMod(k, 3);
      assert false;
    }
  }

  lemma ReduceKeepsMultiple(x: int, p: int, t: int, c: int)
    requires p > 0 && t > 0 && x == p * c
    ensures x % (p * t) == p * (c - (x / (p * t)) * t)
  {
    MulAtLeast(p, t);
    var q := x / (p * t);
    assert x == q * (p * t) + x % (p * t);
    assert q * (p * t) == p * (q * t);
  }

  lemma ShiftByMultipleOfThree(c: int, q: int, t: int)
    requires t % 3 == 0
    ensures Cong(c - q * t, c, 3)
  {
    CongWitness(t, 0, 3);
    assert q * t == (q * (t / 3)) * 3;
    CongFromWitness(c - q * t, c, -(q * (t / 3)), 3);
  }

  /** Reducing 3^w * c modulo 3^n, for w < n, keeps w factors and changes c
      only by a multiple of 3. */
  lemma ReduceKeepsFactor(x: int, w: nat, c: int, n: nat)
    requires x == Pow3(w) * c && w < n
    ensures x % Pow3(n) == Pow3(w) * (c - (x / Pow3(n)) * Pow3(n - w))
    ensures Cong(c - (x / Pow3(n)) * Pow3(n - w), c, 3)
  {
    Pow3Divides(w, n);
    ReduceKeepsMultiple(x, Pow3(w), Pow3(n - w), c);
    Pow3Divides(1, n - w);
    ShiftByMultipleOfThree(c, x / Pow3(n), Pow3(n - w));
  }

  lemma HighPowerVanishes(x: int, w: nat, c: int, n: nat)
    requires x == Pow3(w) * c && w >= n
    ensures x % Pow3(n) == 0
  {
    Pow3Divides(n, w);
    RegroupProduct(x, Pow3(n), Pow3(w - n), c);
    MultipleIsZeroMod(Pow3(w - n) * c, Pow3(n));
  }

  lemma RegroupProduct(x: int, p: int, q: int, c: int)
    requires x == (p * q) * c
    ensures x == (q * c) * p
  {
  }

  /** The non-archimedean law modulo 3^n: if a has exactly va factors 3, b
      exactly vb, and a * b does not vanish modulo 3^n, then its residue
      has exactly va + vb factors 3. */
  lemma ProductValuation(a: int, b: int, va: nat, vb: nat, n: nat)
    requires a % Pow3(va) == 0 && a % Pow3(va + 1) != 0
    requires b % Pow3(vb) == 0 && b % Pow3(vb + 1) != 0
    requires (a * b) % Pow3(n) != 0
    ensures va + vb < n
    ensures ((a * b) % Pow3(n)) % Pow3(va + vb) == 0
    ensures ((a * b) % Pow3(n)) % Pow3(va + vb + 1) != 0
  {
    ExactPowerFactor(a, va);
    ExactPowerFactor(b, vb);
    ProductExactPower(a, b, va, vb, a / Pow3(va), b / Pow3(vb), n);
  }

  /** The other half of the law modulo 3^n: if a has exactly va factors 3
      and b exactly vb, and a * b vanishes modulo 3^n, then va + vb >= n. */
  lemma VanishingProductValuation(a: int, b: int, va: nat, vb: nat, n: nat)
    requires a % Pow3(va) == 0 && a % Pow3(va + 1) != 0
    requires b % Pow3(vb) == 0 && b % Pow3(vb + 1) != 0
    requires (a * b) % Pow3(n) == 0
    ensures va + vb >= n
  {
    var w := va + vb;
    if w < n {
      ExactPowerFactor(a, va);
      ExactPowerFactor(b, vb);
      var ca, cb := a / Pow3(va), b / Pow3(vb);
      Pow3Add(va, vb);
      ProductOfFactors(a, b, Pow3(va), Pow3(vb), ca, cb);
      ReduceKeepsFactor(a * b, w, ca * cb, n);
      ThreeIsPrime(ca, cb);
      ExactPowerOfFactor((a * b) % Pow3(n), w, ca * cb - ((a * b) / Pow3(n)) * Pow3(n - w));
      assert false;
    }
  }

  /** Factors 3 add up in a product that stays nonzero modulo 3^n: if
      a = 3^va * ca and b = 3^vb * cb with ca, cb prime to 3, then the
      residue of a * b modulo 3^n, when nonzero, has exactly va + vb factors. */
  lemma ProductExactPower(a: int, b: int, va: nat, vb: nat, ca: int, cb: int, n: nat)
    requires a == Pow3(va) * ca && ca % 3 != 0
    requires b == Pow3(vb) * cb && cb % 3 != 0
    requires (a * b) % Pow3(n) != 0
    ensures va + vb < n
    ensures ((a * b) % Pow3(n)) % Pow3(va + vb) == 0
    ensures ((a * b) % Pow3(n)) % Pow3(va + vb + 1) != 0
  {
    var w := va + vb;
    var c := ca * cb;
    Pow3Add(va, vb);
    ProductOfFactors(a, b, Pow3(va), Pow3(vb), ca, cb);
    if w >= n {
      HighPowerVanishes(a * b, w, c, n);
      assert false;
    }
    ReduceKeepsFactor(a * b, w, c, n);
    var c' := c - ((a * b) / Pow3(n)) * Pow3(n - w);
    ThreeIsPrime(ca, cb);
    ExactPowerOfFactor((a * b) % Pow3(n), w, c');
  }
}
