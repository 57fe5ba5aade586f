/**
 * The modular arithmetic kernel of RSALIB.py: square-and-multiply
 * exponentiation, Euclid's algorithm, the extended algorithm and the
 * normalised modular inverse used as the private exponent.
 */
module ModArith {

  // ---------------------------------------------------------------------
  // Integer powers and small facts about division and remainder
  // ---------------------------------------------------------------------

  /** a^k, the reference definition for every exponentiation below. */
  function Pow(a: int, k: nat): int
  {
    if k == 0 then 1 else a * Pow(a, k - 1)
  }

  /** Division by a positive divisor is determined by quotient and remainder. */
  lemma DivModUnique(x: int, n: int, q: int, r: int)
    requires n > 0 && 0 <= r < n && x == n * q + r
    ensures x / n == q && x % n == r
  {
    var q0, r0 := x / n, x % n;
    assert x == n * q0 + r0;
    if q > q0 {
      MulMonotone(n, 1, q - q0);
    } else if q < q0 {
      MulMonotone(n, 1, q0 - q);
    }
  }

  /** The quotient-remainder decomposition of x by a positive n. */
  lemma DivMod(x: int, n: int)
    requires n > 0
    ensures x == n * (x / n) + x % n && 0 <= x % n < n
  {
  }

  lemma MulMonotone(n: int, a: int, b: int)
    requires n >= 0 && a <= b
    ensures n * a <= n * b
  {
    assert n * b - n * a == n * (b - a);
  }

  /** Adding a multiple of n does not change the remainder modulo n. */
  lemma ModAddMultiple(x: int, n: int, k: int)
    requires n > 0
    ensures (x + n * k) % n == x % n
  {
    var q, r := x / n, x % n;
    assert x + n * k == n * (q + k) + r;
    DivModUnique(x + n * k, n, q + k, r);
  }

  /** A multiple of n leaves no remainder. */
  lemma ModMultiple(n: int, k: int)
    requires n > 0
    ensures (n * k) % n == 0
  {
    DivModUnique(n * k, n, k, 0);
  }

  /** Every linear combination of multiples of c is a multiple of c. */
  lemma ModLinear(c: int, x: int, y: int, s: int, t: int)
    requires c > 0 && x % c == 0 && y % c == 0
    ensures (s * x + t * y) % c == 0
  {
    var kx, ky := x / c, y / c;
    assert x == c * kx;
    assert y == c * ky;
    calc {
      s * x + t * y;
      s * (c * kx) + t * (c * ky);
      c * (s * kx + t * ky);
    }
    ModMultiple(c, s * kx + t * ky);
  }

  /** Reducing the left factor modulo n does not change a product's remainder. */
  lemma ModMulLeft(a: int, b: int, n: int)
    requires n > 0
    ensures ((a % n) * b) % n == (a * b) % n
  {
    var q := a / n;
    assert a == n * q + a % n;
    assert a * b == (a % n) * b + n * (q * b) by {
      calc {
        a * b;
        (n * q + a % n) * b;
        (a % n) * b + n * (q * b);
      }
    }
    ModAddMultiple((a % n) * b, n, q * b);
  }

  /** Reducing the right factor modulo n does not change a product's remainder. */
  lemma ModMulRight(a: int, b: int, n: int)
    requires n > 0
    ensures (a * (b % n)) % n == (a * b) % n
  {
    ModMulLeft(b, a, n);
    assert a * (b % n) == (b % n) * a;
    assert a * b == b * a;
  }

  lemma {:induction false} PowAdd(a: int, i: nat, j: nat)
    ensures Pow(a, i + j) == Pow(a, i) * Pow(a, j)
  {
    if i > 0 {
      PowAdd(a, i - 1, j);
      assert Pow(a, i + j) == a * Pow(a, (i - 1) + j);
      MulAssoc(a, Pow(a, i - 1), Pow(a, j));
    }
  }

  lemma {:induction false} PowMul(a: int, i: nat, j: nat)
    ensures Pow(a, i * j) == Pow(Pow(a, i), j)
  {
    if j > 0 {
      PowMul(a, i, j - 1);
      assert i * j == i * (j - 1) + i;
      PowAdd(a, i * (j - 1), i);
      calc {
        Pow(a, i * j);
        Pow(a, i * (j - 1)) * Pow(a, i);
        Pow(Pow(a, i), j - 1) * Pow(a, i);
        Pow(a, i) * Pow(Pow(a, i), j - 1);
        Pow(Pow(a, i), j);
      }
    }
  }

  lemma PowTwo(a: int)
    ensures Pow(a, 2) == a * a
  {
    assert Pow(a, 1) == a * Pow(a, 0) == a;
  }

  /** Squaring the base halves the exponent. */
  lemma PowSquare(a: int, j: nat)
    ensures Pow(a * a, j) == Pow(a, 2 * j)
  {
    PowMul(a, 2, j);
    PowTwo(a);
  }

  /** The base may be reduced modulo n before exponentiation. */
  lemma {:induction false} PowMod(a: int, k: nat, n: int)
    requires n > 0
    ensures Pow(a % n, k) % n == Pow(a, k) % n
  {
    if k > 0 {
      PowMod(a, k - 1, n);
      calc {
        Pow(a % n, k) % n;
        ((a % n) * Pow(a % n, k - 1)) % n;
        { ModMulRight(a % n, Pow(a % n, k - 1), n); }
        ((a % n) * (Pow(a % n, k - 1) % n)) % n;
        ((a % n) * (Pow(a, k - 1) % n)) % n;
        { ModMulRight(a % n, Pow(a, k - 1), n); }
        ((a % n) * Pow(a, k - 1)) % n;
        { ModMulLeft(a, Pow(a, k - 1), n); }
        (a * Pow(a, k - 1)) % n;
        Pow(a, k) % n;
      }
    }
  }

  lemma {:induction false} PowPositive(b: int, k: nat)
    requires b > 0
    ensures Pow(b, k) > 0
  {
    if k > 0 {
      PowPositive(b, k - 1);
      MulMonotone(Pow(b, k - 1), 1, b);
    }
  }

  /** Powers of a base of at least two grow strictly with the exponent. */
  lemma {:induction false} PowStrictlyIncreasing(b: int, i: nat, j: nat)
    requires b >= 2 && i < j
    ensures Pow(b, i) < Pow(b, j)
    decreases j
  {
    PowPositive(b, j - 1);
    MulMonotone(Pow(b, j - 1), 2, b);
    if i < j - 1 {
      PowStrictlyIncreasing(b, i, j - 1);
    }
  }

  lemma PowIncreasing(b: int, i: nat, j: nat)
    requires b >= 2 && i <= j
    ensures Pow(b, i) <= Pow(b, j)
  {
    if i < j {
      PowStrictlyIncreasing(b, i, j);
    }
  }

  // ---------------------------------------------------------------------
  // fast_mod_pwr (RSALIB.py:16-26)
  // ---------------------------------------------------------------------

  /**
   * What fast_mod_pwr(a, k, n) returns: a^k mod n, except that a zero
   * exponent yields 1 before any reduction, so that the result for
   * n == 1 and k == 0 is 1 and not 0.
   */
  function ModPow(a: int, k: nat, n: int): (r: int)
    requires n > 0
    ensures k > 0 ==> 0 <= r < n
    ensures k == 0 ==> r == 1
  {
    if k == 0 then 1 else Pow(a, k) % n
  }

  /** The odd step of fast_mod_pwr keeps rem * rema^j mod n unchanged. */
  lemma OddStep(rem: int, rema: int, j: nat, n: int)
    requires n > 0 && j > 0
    ensures ((rem * rema % n) * Pow(rema, j - 1)) % n == (rem * Pow(rema, j)) % n
  {
    ModMulLeft(rem * rema, Pow(rema, j - 1), n);
    MulAssoc(rem, rema, Pow(rema, j - 1));
  }

  lemma MulAssoc(x: int, y: int, z: int)
    ensures (x * y) * z == x * (y * z)
  {
  }

  /** The even step of fast_mod_pwr keeps rem * rema^j mod n unchanged. */
  lemma EvenStep(rem: int, rema: int, j: nat, n: int)
    requires n > 0 && j % 2 == 0
    ensures (rem * Pow(rema * rema % n, j / 2)) % n == (rem * Pow(rema, j)) % n
  {
    var h := j / 2;
    ModMulRight(rem, Pow(rema * rema % n, h), n);
    PowMod(rema * rema, h, n);
    ModMulRight(rem, Pow(rema * rema, h), n);
    PowSquare(rema, h);
    assert 2 * h == j;
  }

  /**
   * Square-and-multiply: an odd exponent is decremented after multiplying
   * the accumulator by the running base, an even one is halved after
   * squaring the running base.
   */
  method FastModPwr(a: int, k: nat, n: int) returns (rem: int)
    requires n > 0
    ensures rem == ModPow(a, k, n)
    ensures k > 0 ==> rem == Pow(a, k) % n
    ensures k == 0 ==> rem == 1
  {
    rem := 1;
    var rema := a % n;
    var j := k;
    PowMod(a, k, n);
    while j != 0
      invariant 0 <= rema < n
      invariant 0 <= rem
      invariant j == 0 ==> k == 0 || rem < n
      invariant k == 0 ==> rem == 1
      invariant (rem * Pow(rema, j)) % n == Pow(a, k) % n
      decreases j
    {
      if j % 2 == 1 {
        OddStep(rem, rema, j, n);
        rem := rem * rema % n;
        j := j - 1;
      } else {
        EvenStep(rem, rema, j, n);
        rema := rema * rema % n;
        j := j / 2;
      }
    }
    assert (rem * 1) % n == Pow(a, k) % n;
    if k > 0 {
      DivModUnique(rem, n, 0, rem);
    }
  }

  // ---------------------------------------------------------------------
  // gcd (RSALIB.py:37-41) and xgcd (RSALIB.py:44-48)
  // ---------------------------------------------------------------------

  /** d is a positive divisor of x. */
  predicate Divides(d: int, x: int)
  {
    d > 0 && x % d == 0
  }

  /** A positive multiple of d is at least d. */
  lemma DivisorAtMost(d: int, x: int)
    requires Divides(d, x) && x > 0
    ensures d <= x
  {
    var k := x / d;
    assert x == d * k;
    if k <= 0 {
      MulMonotone(d, k, 0);
    } else {
      MulMonotone(d, 1, k);
    }
  }

  /**
   * Recursive Euclid on a positive second operand: the remainder a % b
   * is strictly smaller than b, which is what makes the recursion stop.
   */
  function Gcd(a: int, b: int): (g: int)
    requires b > 0
    ensures Divides(g, a) && Divides(g, b)
    ensures g <= b
    decreases b
  {
    var rem := a % b;
    if rem != 0 then
      var g := Gcd(b, rem);
      DividesStep(g, a, b);
      g
    else
      b
  }

  /** Every common divisor of a and b divides Gcd(a, b). */
  lemma {:induction false} GcdGreatest(a: int, b: int, c: int)
    requires b > 0 && Divides(c, a) && Divides(c, b)
    ensures Divides(c, Gcd(a, b))
    decreases b
  {
    var rem := a % b;
    if rem != 0 {
      DividesStep(c, a, b);
      GcdGreatest(b, rem, c);
    }
  }

  /** A divisor of b divides a exactly when it divides a % b. */
  lemma DividesStep(g: int, a: int, b: int)
    requires b > 0 && Divides(g, b)
    ensures Divides(g, a) <==> Divides(g, a % b)
  {
    var q, r := a / b, a % b;
    DivMod(a, b);
    if r % g == 0 {
      ModLinear(g, b, r, q, 1);
      assert q * b + 1 * r == a;
    }
    if a % g == 0 {
      ModLinear(g, a, b, 1, -q);
      assert 1 * a + (-q) * b == r;
    }
  }

  /** Two positive integers that divide each other are equal. */
  lemma DividesAntisymmetric(x: int, y: int)
    requires x > 0 && y > 0 && Divides(x, y) && Divides(y, x)
    ensures x == y
  {
    DivisorAtMost(x, y);
    DivisorAtMost(y, x);
  }

  /** The greatest common divisor does not depend on the order of its operands. */
  lemma GcdCommutes(a: int, b: int)
    requires a > 0 && b > 0
    ensures Gcd(a, b) == Gcd(b, a)
  {
    var g1, g2 := Gcd(a, b), Gcd(b, a);
    GcdGreatest(b, a, g1);
    GcdGreatest(a, b, g2);
    DividesAntisymmetric(g1, g2);
  }

  /**
   * Extended Euclid, returning (x, y, g): Bezout coefficients of a and b
   * and the value they combine to.
   */
  function Xgcd(a: int, b: nat): (r: (int, int, int))
    ensures a * r.0 + b * r.1 == r.2
    ensures b == 0 ==> r == (1, 0, a)
    ensures b > 0 ==> r.2 == Gcd(a, b)
    decreases b
  {
    if b != 0 then
      var (x, y, g) := Xgcd(b, a % b);
      DivMod(a, b);
      BezoutStep(a, b, a / b, a % b, x, y);
      (y, x - a / b * y, g)
    else
      (1, 0, a)
  }

  /** The algebra behind one step of the extended algorithm. */
  lemma BezoutStep(a: int, b: int, q: int, r: int, x: int, y: int)
    requires a == b * q + r
    ensures a * y + b * (x - q * y) == b * x + r * y
  {
    calc {
      a * y + b * (x - q * y);
      (b * q + r) * y + b * x - b * (q * y);
      { MulAssoc(b, q, y); }
      r * y + b * x;
    }
  }

  lemma AbsMulBound(q: int, y: int, b: int)
    requires q >= 0 && -b <= y <= b
    ensures -(q * b) <= q * y <= q * b
  {
    MulMonotone(q, y, b);
    MulMonotone(q, -b, y);
  }

  /**
   * The Bezout coefficients stay small: |x| <= b and |y| <= max(a, 1)
   * for a >= 0 and b > 0.
   */
  lemma {:induction false} XgcdBound(a: int, b: nat)
    requires a >= 0 && b > 0
    ensures -(b as int) <= Xgcd(a, b).0 <= b
    ensures -(if a > 0 then a else 1) <= Xgcd(a, b).1 <= (if a > 0 then a else 1)
    decreases b
  {
    var rem := a % b;
    if rem != 0 {
      XgcdBound(b, rem);
      var r := Xgcd(b, rem);
      var q := a / b;
      DivMod(a, b);
      BoundStep(a, b, q, rem, r.0, r.1);
    }
  }

  /** One step of XgcdBound: the new coefficients stay within b and a. */
  lemma BoundStep(a: int, b: int, q: int, r: int, x: int, y: int)
    requires a >= 0 && 0 < r < b && a == b * q + r
    requires -r <= x <= r && -b <= y <= b
    ensures -a <= x - q * y <= a
  {
    assert q >= 0 by {
      if q < 0 { MulMonotone(b, q, -1); }
    }
    AbsMulBound(q, y, b);
  }

  // ---------------------------------------------------------------------
  // calculate_d (RSALIB.py:61-63)
  // ---------------------------------------------------------------------

  /**
   * The private exponent: the Bezout coefficient of e in Xgcd(e, phi),
   * lifted by phi when it is negative.
   */
  function CalculateD(e: nat, phi: nat): (d: int)
    ensures phi > 0 ==> d % phi == Xgcd(e, phi).0 % phi
    ensures phi > 1 && e > 0 && Gcd(phi, e) == 1 ==> 0 <= d < phi && (e * d) % phi == 1
  {
    var x := Xgcd(e, phi).0;
    var lift := if x < 0 then 1 else 0;
    LiftedCoefficient(e, phi, x, lift);
    x + phi * lift
  }

  /** What adding phi (or nothing) to the Bezout coefficient of e preserves. */
  lemma LiftedCoefficient(e: nat, phi: nat, x: int, lift: int)
    requires x == Xgcd(e, phi).0 && lift == (if x < 0 then 1 else 0)
    ensures phi > 0 ==> (x + phi * lift) % phi == x % phi
    ensures phi > 1 && e > 0 && Gcd(phi, e) == 1 ==>
              0 <= x + phi * lift < phi && (e * (x + phi * lift)) % phi == 1
  {
    if phi > 0 {
      ModAddMultiple(x, phi, lift);
    }
    if phi > 1 && e > 0 && Gcd(phi, e) == 1 {
      InverseFromBezout(e, phi);
      LiftKeepsInverse(e, x, phi, lift);
    }
  }

  /** Adding a multiple of p to x keeps c * x mod p. */
  lemma LiftKeepsInverse(c: int, x: int, p: int, lift: int)
    requires p > 0
    ensures (c * (x + p * lift)) % p == (c * x) % p
  {
    assert c * (x + p * lift) == c * x + p * (c * lift) by {
      MulAssoc(c, p, lift);
      MulAssoc(p, c, lift);
    }
    ModAddMultiple(c * x, p, c * lift);
  }

  /** A multiple of an integer greater than one is never one. */
  lemma MultipleNotOne(n: int, k: int)
    requires n > 1
    ensures n * k != 1
  {
    if k >= 1 {
      MulMonotone(n, 1, k);
    } else {
      MulMonotone(n, k, 0);
    }
  }

  /**
   * When e and phi > 1 are coprime, the Bezout coefficient x of e satisfies
   * -phi < x < phi and e * x leaves remainder 1 modulo phi.
   */
  lemma InverseFromBezout(e: nat, phi: nat)
    requires phi > 1 && e > 0 && Gcd(phi, e) == 1
    ensures -(phi as int) < Xgcd(e, phi).0 < phi
    ensures (e * Xgcd(e, phi).0) % phi == 1
  {
    GcdCommutes(phi, e);
    XgcdBound(e, phi);
    var r := Xgcd(e, phi);
    CoefficientNotModulus(e, r.0, phi, r.1);
    InverseRemainder(e, r.0, phi, r.1);
  }

  /** In c * x + p * y == 1 with p > 1, c * x leaves remainder 1 modulo p. */
  lemma InverseRemainder(c: int, x: int, p: int, y: int)
    requires p > 1 && c * x + p * y == 1
    ensures (c * x) % p == 1
  {
    DivModUnique(c * x, p, -y, 1);
  }

  /** In c * x + p * y == 1 with p > 1, the coefficient x is neither p nor -p. */
  lemma CoefficientNotModulus(c: int, x: int, p: int, y: int)
    requires p > 1 && c * x + p * y == 1
    ensures x != p && x != -p
  {
    MultipleNotOne(p, c + y);
    MultipleNotOne(p, y - c);
    assert p * (c + y) == p * c + p * y;
    assert p * (y - c) == p * y - p * c;
  }
}
