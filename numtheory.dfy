/**
 * The number theory that textbook RSA rests on, proved from the kernel's
 * own definitions: Euclid's lemma (from the Bezout identity computed by
 * Xgcd), Fermat's little theorem (from the binomial theorem) and the
 * RSA identity m^(e*d) == m (mod p*q).
 */
module NumberTheory {
  import opened ModArith

  /** p is a prime number. */
  predicate Prime(p: int)
  {
    p >= 2 && forall d :: 2 <= d < p ==> !Divides(d, p)
  }

  // ---------------------------------------------------------------------
  // Congruences
  // ---------------------------------------------------------------------

  /** Two integers are congruent modulo n exactly when n divides their difference. */
  lemma ModEqual(x: int, y: int, n: int)
    requires n > 0
    ensures x % n == y % n <==> (x - y) % n == 0
  {
    DivMod(x, n);
    DivMod(y, n);
    var qx, qy := x / n, y / n;
    assert x - y == n * (qx - qy) + (x % n - y % n);
    if x % n == y % n {
      ModMultiple(n, qx - qy);
    } else if x % n > y % n {
      DivModUnique(x - y, n, qx - qy, x % n - y % n);
    } else {
      assert x - y == n * (qx - qy - 1) + (n + x % n - y % n);
      DivModUnique(x - y, n, qx - qy - 1, n + x % n - y % n);
    }
  }

  /** Adding the same integer to congruent integers keeps them congruent. */
  lemma ModAddCongruent(x: int, y: int, c: int, n: int)
    requires n > 0 && x % n == y % n
    ensures (x + c) % n == (y + c) % n
  {
    ModEqual(x, y, n);
    ModEqual(x + c, y + c, n);
  }

  // ---------------------------------------------------------------------
  // Euclid's lemma
  // ---------------------------------------------------------------------

  /** A remainder strictly between 0 and a prime p is coprime to p. */
  lemma CoprimeToPrime(p: int, r: int)
    requires Prime(p) && 0 < r < p
    ensures Gcd(r, p) == 1
  {
    var g := Gcd(r, p);
    DivisorAtMost(g, r);
    assert Divides(g, p);
  }

  /** The ring identity behind Euclid's lemma. */
  lemma BezoutScale(b: int, r: int, x: int, p: int, y: int)
    requires r * x + p * y == 1
    ensures b == x * (r * b) + (b * y) * p
  {
    calc {
      x * (r * b) + (b * y) * p;
      b * (r * x) + b * (p * y);
      b * (r * x + p * y);
      b * 1;
    }
  }

  /** If a prime divides a product, it divides one of the factors. */
  lemma EuclidLemma(p: int, a: int, b: int)
    requires Prime(p) && (a * b) % p == 0
    ensures a % p == 0 || b % p == 0
  {
    var r := a % p;
    if r != 0 {
      CoprimeToPrime(p, r);
      var t := Xgcd(r, p);
      assert r * t.0 + p * t.1 == 1;
      ModMulLeft(a, b, p);
      assert (r * b) % p == 0;
      ModMultiple(p, 1);
      ModLinear(p, r * b, p, t.0, b * t.1);
      BezoutScale(b, r, t.0, p, t.1);
    }
  }

  /** A prime does not divide a different prime. */
  lemma DistinctPrimesCoprime(p: int, q: int)
    requires Prime(p) && Prime(q) && p != q
    ensures p % q != 0
  {
    if p % q == 0 {
      DivisorAtMost(q, p);
      assert Divides(q, p);
    }
  }

  /**
   * Chinese remaindering for two distinct primes: agreement modulo p and
   * modulo q is agreement modulo p * q.
   */
  lemma CrtTwoPrimes(p: int, q: int, x: int, m: int)
    requires Prime(p) && Prime(q) && p != q
    requires x % p == m % p && x % q == m % q
    requires 0 <= m < p * q
    ensures x % (p * q) == m
  {
    ModEqual(x, m, p);
    ModEqual(x, m, q);
    DivMod(x - m, p);
    var s := (x - m) / p;
    assert x - m == p * s;
    DistinctPrimesCoprime(p, q);
    EuclidLemma(q, p, s);
    DivMod(s, q);
    var u := s / q;
    assert s == q * u;
    assert x == (p * q) * u + m by {
      MulAssoc(p, q, u);
    }
    DivModUnique(x, p * q, u, m);
  }

  // ---------------------------------------------------------------------
  // Binomial coefficients
  // ---------------------------------------------------------------------

  /** Binomial coefficients by Pascal's rule; zero when k exceeds n. */
  function Binom(n: nat, k: nat): nat
  {
    if k == 0 then 1
    else if n == 0 then 0
    else Binom(n - 1, k - 1) + Binom(n - 1, k)
  }

  lemma {:induction false} BinomAbove(n: nat, k: nat)
    requires k > n
    ensures Binom(n, k) == 0
  {
    if n > 0 {
      BinomAbove(n - 1, k - 1);
      BinomAbove(n - 1, k);
    }
  }

  lemma {:induction false} BinomDiagonal(n: nat)
    ensures Binom(n, n) == 1
  {
    if n > 0 {
      BinomDiagonal(n - 1);
      BinomAbove(n - 1, n);
    }
  }

  lemma {:induction false} BinomOne(n: nat)
    ensures Binom(n, 1) == n
  {
    if n > 0 {
      BinomOne(n - 1);
    }
  }

  /** The algebra of one absorption step. */
  lemma AbsorptionAlgebra(k: int, n: int, c: int, bk: int, b0: int, b1: int)
    requires k * bk == (n - 1) * b1 && (k - 1) * c == (n - 1) * b0 && c == b0 + b1
    ensures k * (c + bk) == n * c
  {
    calc {
      k * (c + bk);
      c + (k - 1) * c + k * bk;
      c + (n - 1) * b0 + (n - 1) * b1;
      c + (n - 1) * c;
      n * c;
    }
  }

  /** The absorption identity k * C(n, k) == n * C(n - 1, k - 1). */
  lemma {:induction false} Absorption(n: nat, k: nat)
    requires n >= 1 && k >= 1
    ensures k * Binom(n, k) == n * Binom(n - 1, k - 1)
  {
    if k == 1 {
      BinomOne(n);
    } else if n == 1 {
      BinomAbove(0, k - 1);
      BinomAbove(1, k);
    } else {
      Absorption(n - 1, k);
      Absorption(n - 1, k - 1);
      var c, bk := Binom(n - 1, k - 1), Binom(n - 1, k);
      var b0, b1 := Binom(n - 2, k - 2), Binom(n - 2, k - 1);
      assert Binom(n, k) == c + bk;
      assert c == b0 + b1;
      AbsorptionAlgebra(k, n, c, bk, b0, b1);
    }
  }

  /** A prime p divides C(p, k) for 0 < k < p. */
  lemma PrimeDividesBinom(p: nat, k: nat)
    requires Prime(p) && 0 < k < p
    ensures Binom(p, k) % p == 0
  {
    Absorption(p, k);
    ModMultiple(p, Binom(p - 1, k - 1));
    DivModUnique(k, p, 0, k);
    EuclidLemma(p, k, Binom(p, k));
  }

  // ---------------------------------------------------------------------
  // The binomial theorem for (a + 1)^n
  // ---------------------------------------------------------------------

  /** The first j terms of the expansion of (a + 1)^n: sum of C(n, i) * a^i for i < j. */
  function BinomSum(a: int, n: nat, j: nat): int
  {
    if j == 0 then 0 else BinomSum(a, n, j - 1) + Binom(n, j - 1) * Pow(a, j - 1)
  }

  /** The algebra of one Pascal step on partial sums. */
  lemma PascalAlgebra(sj: int, sjm: int, b1: int, b0: int, pj: int, pjm: int, a: int)
    requires pj == a * pjm
    ensures sj + a * sjm + (b1 + b0) * pj == (sj + b0 * pj) + a * (sjm + b1 * pjm)
  {
    calc {
      (b1 + b0) * pj;
      b1 * pj + b0 * pj;
      b1 * (a * pjm) + b0 * pj;
      { MulAssoc(b1, a, pjm); MulAssoc(a, b1, pjm); }
      a * (b1 * pjm) + b0 * pj;
    }
  }

  /** Pascal's rule lifted to partial sums. */
  lemma {:induction false} PascalSum(a: int, n: nat, j: nat)
    ensures BinomSum(a, n + 1, j + 1) == BinomSum(a, n, j + 1) + a * BinomSum(a, n, j)
  {
    if j > 0 {
      PascalSum(a, n, j - 1);
      assert Binom(n + 1, j) == Binom(n, j - 1) + Binom(n, j);
      assert Pow(a, j) == a * Pow(a, j - 1);
      PascalAlgebra(BinomSum(a, n, j), BinomSum(a, n, j - 1), Binom(n, j - 1), Binom(n, j),
                    Pow(a, j), Pow(a, j - 1), a);
    }
  }

  /** (a + 1)^n is the sum of C(n, i) * a^i for i <= n. */
  lemma {:induction false} BinomialTheorem(a: int, n: nat)
    ensures Pow(a + 1, n) == BinomSum(a, n, n + 1)
  {
    if n > 0 {
      var s := BinomSum(a, n - 1, n);
      assert Pow(a + 1, n) == (a + 1) * s by {
        BinomialTheorem(a, n - 1);
      }
      assert BinomSum(a, n - 1, n + 1) == s by {
        BinomAbove(n - 1, n);
      }
      assert BinomSum(a, n, n + 1) == s + a * s by {
        PascalSum(a, n - 1, n);
      }
      SuccMul(a, s);
    }
  }

  lemma SuccMul(a: int, s: int)
    ensures (a + 1) * s == s + a * s
  {
  }

  /** Modulo a prime p, every middle term of the expansion of (a + 1)^p vanishes. */
  lemma {:induction false} PartialSumModPrime(a: int, p: nat, j: nat)
    requires Prime(p) && 1 <= j <= p
    ensures BinomSum(a, p, j) % p == 1
  {
    if j == 1 {
      assert BinomSum(a, p, 1) == 1;
    } else {
      PartialSumModPrime(a, p, j - 1);
      PrimeDividesBinom(p, j - 1);
      DivMod(Binom(p, j - 1), p);
      var c := Binom(p, j - 1) / p;
      assert Binom(p, j - 1) * Pow(a, j - 1) == p * (c * Pow(a, j - 1)) by {
        MulAssoc(p, c, Pow(a, j - 1));
      }
      ModAddMultiple(BinomSum(a, p, j - 1), p, c * Pow(a, j - 1));
    }
  }

  /** The "freshman's dream": (a + 1)^p == a^p + 1 (mod p) for a prime p. */
  lemma FreshmanDream(a: int, p: nat)
    requires Prime(p)
    ensures Pow(a + 1, p) % p == (Pow(a, p) + 1) % p
  {
    var s := BinomSum(a, p, p);
    assert Pow(a + 1, p) == s + Pow(a, p) by {
      BinomialTheorem(a, p);
      BinomDiagonal(p);
      assert BinomSum(a, p, p + 1) == s + Binom(p, p) * Pow(a, p);
    }
    assert s % p == 1 by {
      PartialSumModPrime(a, p, p);
    }
    ModAddCongruent(s, 1, Pow(a, p), p);
  }

  // ---------------------------------------------------------------------
  // Fermat's little theorem
  // ---------------------------------------------------------------------

  lemma {:induction false} PowZeroBase(k: nat)
    requires k > 0
    ensures Pow(0, k) == 0
  {
  }

  lemma {:induction false} PowOneBase(k: nat)
    ensures Pow(1, k) == 1
  {
    if k > 0 {
      PowOneBase(k - 1);
    }
  }

  /** Fermat's little theorem in the form a^p == a (mod p). */
  lemma {:induction false} Fermat(a: nat, p: nat)
    requires Prime(p)
    ensures Pow(a, p) % p == a % p
  {
    if a == 0 {
      PowZeroBase(p);
    } else {
      Fermat(a - 1, p);
      FreshmanDream(a - 1, p);
      ModAddCongruent(Pow(a - 1, p), a - 1, 1, p);
    }
  }

  /** Fermat's little theorem: a^(p-1) == 1 (mod p) when p does not divide a. */
  lemma FermatLittle(a: nat, p: nat)
    requires Prime(p) && a % p != 0
    ensures Pow(a, p - 1) % p == 1
  {
    var x := Pow(a, p - 1);
    assert (a * (x - 1)) % p == 0 by {
      Fermat(a, p);
      assert Pow(a, p) == a * x;
      ModEqual(a * x, a, p);
      MulMinusOne(a, x);
    }
    EuclidLemma(p, a, x - 1);
    ModEqual(x, 1, p);
    DivModUnique(1, p, 0, 1);
  }

  lemma MulMinusOne(a: int, x: int)
    ensures a * x - a == a * (x - 1)
  {
  }

  /** A multiple of p raised to a positive power is still a multiple of p. */
  lemma PowOfMultiple(a: int, k: nat, p: int)
    requires p > 0 && a % p == 0 && k > 0
    ensures Pow(a, k) % p == 0
  {
    ModMulLeft(a, Pow(a, k - 1), p);
  }

  /** Every a satisfies a^(1 + t*(p-1)) == a (mod p) for a prime p. */
  lemma FermatExponent(a: nat, p: nat, t: nat)
    requires Prime(p)
    ensures Pow(a, 1 + t * (p - 1)) % p == a % p
  {
    var k := 1 + t * (p - 1);
    if a % p == 0 {
      PowOfMultiple(a, k, p);
    } else {
      var y := Pow(a, t * (p - 1));
      assert y % p == 1 by {
        var x := Pow(a, p - 1);
        FermatLittle(a, p);
        PowMul(a, p - 1, t);
        MulCommutes(p - 1, t);
        PowMod(x, t, p);
        PowOneBase(t);
        DivModUnique(1, p, 0, 1);
      }
      assert Pow(a, k) == a * y;
      ModMulRight(a, y, p);
    }
  }

  lemma MulCommutes(x: int, y: int)
    ensures x * y == y * x
  {
  }

  // ---------------------------------------------------------------------
  // The RSA identity
  // ---------------------------------------------------------------------

  /** The exponent k == 1 (mod (p-1)*(q-1)) has the form 1 + t*(p-1) for some t. */
  lemma ExponentShape(k: nat, p: nat, q: nat) returns (tp: nat, tq: nat)
    requires p >= 2 && q >= 2 && k % ((p - 1) * (q - 1)) == 1
    ensures k == 1 + tp * (p - 1) && k == 1 + tq * (q - 1)
  {
    var phi := (p - 1) * (q - 1);
    DivMod(k, phi);
    var t := k / phi;
    assert t >= 0 by {
      if t < 0 { MulMonotone(phi, t, -1); }
    }
    tp, tq := t * (q - 1), t * (p - 1);
    MulAssoc(t, q - 1, p - 1);
    MulAssoc(t, p - 1, q - 1);
  }

  /** m^k == m (mod p*q) for distinct primes p, q, k == 1 (mod (p-1)*(q-1)) and 0 <= m < p*q. */
  lemma RsaIdentity(p: nat, q: nat, k: nat, m: nat)
    requires Prime(p) && Prime(q) && p != q
    requires k % ((p - 1) * (q - 1)) == 1
    requires m < p * q
    ensures Pow(m, k) % (p * q) == m
  {
    var tp, tq := ExponentShape(k, p, q);
    FermatExponent(m, p, tp);
    FermatExponent(m, q, tq);
    CrtTwoPrimes(p, q, Pow(m, k), m);
  }

  /**
   * Decrypting an encrypted value gives it back: ModPow with d undoes
   * ModPow with e on every m < p*q when e*d == 1 (mod (p-1)*(q-1)).
   */
  lemma ModPowInverse(p: nat, q: nat, e: nat, d: nat, m: nat)
    requires Prime(p) && Prime(q) && p != q
    requires (e * d) % ((p - 1) * (q - 1)) == 1
    requires m < p * q
    ensures ModPow(ModPow(m, e, p * q), d, p * q) == m
  {
    var n := p * q;
    PrimeProductPositive(p, q);
    NonZeroFactors(e, d, (p - 1) * (q - 1));
    var c := ModPow(m, e, n);
    assert c == Pow(m, e) % n;
    assert ModPow(c, d, n) == Pow(Pow(m, e), d) % n by {
      PowMod(Pow(m, e), d, n);
    }
    assert Pow(Pow(m, e), d) == Pow(m, e * d) by {
      PowMul(m, e, d);
    }
    RsaIdentity(p, q, e * d, m);
  }

  /** The modulus and the totient of two primes are positive. */
  lemma PrimeProductPositive(p: int, q: int)
    requires p >= 2 && q >= 2
    ensures p * q >= 4 && (p - 1) * (q - 1) >= 1
  {
    MulMonotone(p, 2, q);
    MulMonotone(p - 1, 1, q - 1);
  }

  /** Factors of a product that is 1 modulo m are non-zero. */
  lemma NonZeroFactors(e: int, d: int, m: int)
    requires m > 0 && (e * d) % m == 1
    ensures e != 0 && d != 0
  {
  }
}
