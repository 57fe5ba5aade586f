/**
 * Prime search of RSALIB.py: deterministic trial division (is_prime), the
 * Fermat test (prime_test) and the retry loop of generate_prime. The
 * pseudo-random draws of randint are supplied as sequences.
 */
module Primality {
  import opened Results
  import opened ModArith
  import opened NumberTheory

  // ---------------------------------------------------------------------
  // round(sqrt(p))
  // ---------------------------------------------------------------------

  /** The integer square root: the largest s with s * s <= p. */
  function ISqrt(p: nat): (s: nat)
    ensures s * s <= p < (s + 1) * (s + 1)
  {
    if p == 0 then 0 else
      var t := ISqrt(p - 1);
      if (t + 1) * (t + 1) <= p then
        SquareStep(t + 1);
        t + 1
      else
        t
  }

  lemma SquareStep(t: int)
    ensures (t + 1) * (t + 1) == t * t + 2 * t + 1
  {
  }

  /**
   * round(sqrt(p)) for p >= 0. sqrt(p) is never exactly halfway between two
   * integers, so it rounds up exactly when p > s * s + s, where s = ISqrt(p).
   */
  function RoundSqrt(p: nat): (r: nat)
    ensures ISqrt(p) <= r <= ISqrt(p) + 1
  {
    var s := ISqrt(p);
    s + (if p > s * s + s then 1 else 0)
  }

  /**
   * RoundSqrt(p) is the integer r nearest to sqrt(p):
   * r - 1/2 < sqrt(p) (when r >= 1) and sqrt(p) < r + 1/2.
   */
  lemma RoundSqrtNearest(p: nat)
    ensures var r := RoundSqrt(p);
      (r >= 1 ==> 4 * (r * r) - 4 * r + 1 < 4 * p) && 4 * p < 4 * (r * r) + 4 * r + 1
  {
    var s, r := ISqrt(p), RoundSqrt(p);
    var sq := s * s;
    SquareStep(s);
    assert sq <= p < sq + 2 * s + 1;
    if p > sq + s {
      assert r * r == sq + 2 * s + 1;
    } else {
      assert r * r == sq;
    }
  }

  /** The loop bound never exceeds p, and for p >= 3 it lies in [ISqrt(p), p). */
  lemma RoundSqrtBound(p: nat)
    ensures RoundSqrt(p) <= p
    ensures p >= 3 ==> ISqrt(p) <= RoundSqrt(p) < p
  {
    var s := ISqrt(p);
    SquareStep(s);
    if s >= 1 {
      MulMonotone(s, 1, s);
    }
    if s >= 2 {
      MulMonotone(s, 2, s);
    }
  }

  // ---------------------------------------------------------------------
  // is_prime (RSALIB.py:79-85)
  // ---------------------------------------------------------------------

  /**
   * What trial division decides: every even number (2 included) is
   * rejected, 1 is accepted, and an odd p >= 3 is accepted exactly when
   * it is prime.
   */
  predicate TrialDivisionAccepts(p: nat)
  {
    p % 2 == 1 && (p == 1 || Prime(p))
  }

  lemma OddDivisor(d: int, p: int)
    requires Divides(d, p) && p % 2 == 1
    ensures d % 2 == 1
  {
    DivMod(p, d);
    DivMod(d, 2);
    if d % 2 == 0 {
      var k := d / 2;
      MulAssoc(2, k, p / d);
      DivModUnique(p, 2, k * (p / d), 0);
    }
  }

  lemma ProductAbove(d: int, q: int, s: int)
    requires s >= 0 && d >= s + 1 && q >= s + 1
    ensures d * q >= (s + 1) * (s + 1)
  {
    MulMonotone(d, s + 1, q);
    MulMonotone(s + 1, s + 1, d);
  }

  lemma ProductAtMost(d: int, q: int)
    requires d > 0 && q <= 1
    ensures d * q <= d
  {
    MulMonotone(d, q, 1);
  }

  /** An odd non-prime p >= 3 has an odd divisor between 3 and ISqrt(p). */
  lemma SmallDivisor(p: nat, d: int) returns (e: int)
    requires p >= 3 && p % 2 == 1 && 2 <= d < p && Divides(d, p)
    ensures 3 <= e <= ISqrt(p) && Divides(e, p)
  {
    var s := ISqrt(p);
    if d <= s {
      e := d;
    } else {
      e := Cofactor(p, d, s);
    }
    OddDivisor(e, p);
  }

  /** When the divisor d exceeds ISqrt(p), the cofactor p / d is a divisor in [2, ISqrt(p)]. */
  lemma Cofactor(p: nat, d: int, s: nat) returns (q: int)
    requires 2 <= d < p && Divides(d, p) && s * s <= p < (s + 1) * (s + 1) && d > s
    ensures 2 <= q <= s && Divides(q, p)
  {
    q := p / d;
    assert p == d * q by {
      DivMod(p, d);
    }
    assert q <= s by {
      if q >= s + 1 {
        ProductAbove(d, q, s);
      }
    }
    assert q >= 2 by {
      if q <= 1 {
        ProductAtMost(d, q);
      }
    }
    DivModUnique(p, q, d, 0);
  }

  /**
   * For odd p >= 3, p is prime exactly when no odd i in [3, ISqrt(p)]
   * divides it: the candidates is_prime tries are enough.
   */
  lemma PrimeIffNoSmallOddDivisor(p: nat)
    requires p >= 3 && p % 2 == 1
    ensures Prime(p) <==> forall i :: 3 <= i <= ISqrt(p) && i % 2 == 1 ==> !Divides(i, p)
  {
    if Prime(p) {
      RoundSqrtBound(p);
    } else {
      var d :| 2 <= d < p && Divides(d, p);
      var e := SmallDivisor(p, d);
      OddDivisor(e, p);
    }
  }

  /** A divisor found by the loop proves that p is rejected. */
  lemma FoundDivisor(p: nat, i: int)
    requires 3 <= i <= RoundSqrt(p) && p % i == 0
    ensures !TrialDivisionAccepts(p)
  {
    RoundSqrtBound(p);
    assert Divides(i, p);
  }

  /** When the loop runs past the bound without a divisor, p is accepted. */
  lemma NoDivisorFound(p: nat, i: int)
    requires p % 2 == 1 && i > RoundSqrt(p)
    requires forall j :: 3 <= j < i && j % 2 == 1 ==> !Divides(j, p)
    ensures TrialDivisionAccepts(p)
  {
    if p >= 3 && !Prime(p) {
      var d :| 2 <= d < p && Divides(d, p);
      var e := SmallDivisor(p, d);
      RoundSqrtBound(p);
      OddDivisor(e, p);
      assert false;
    }
  }

  /**
   * is_prime(p): reject even p, then try the odd candidates
   * 3, 5, ..., round(sqrt(p)).
   */
  method IsPrime(p: nat) returns (r: bool)
    ensures r <==> TrialDivisionAccepts(p)
  {
    if p % 2 == 0 {
      return false;
    }
    var bound := RoundSqrt(p);
    var i := TrialDivide(p, bound);
    if i <= bound {
      FoundDivisor(p, i);
      return false;
    }
    NoDivisorFound(p, i);
    return true;
  }

  /**
   * The loop of is_prime: try i = 3, 5, ... while i <= bound, and stop at
   * the first i that divides p. The result is that i, or the first odd
   * number past bound when none divides p.
   */
  method TrialDivide(p: nat, bound: int) returns (i: int)
    ensures i >= 3 && i % 2 == 1
    ensures forall j :: 3 <= j < i && j % 2 == 1 ==> !Divides(j, p)
    ensures i <= bound ==> p % i == 0
  {
    i := 3;
    while i <= bound
      invariant i >= 3 && i % 2 == 1
      invariant forall j :: 3 <= j < i && j % 2 == 1 ==> !Divides(j, p)
      decreases bound as int + 2 - i
    {
      if p % i == 0 {
        return;
      }
      i := i + 2;
    }
  }

  // ---------------------------------------------------------------------
  // prime_test (RSALIB.py:88-96)
  // ---------------------------------------------------------------------

  /**
   * The outcome of prime_test(p, tests) when the i-th call to
   * randint(2, p - 1) yields draws[i]: an error when that range is empty
   * and a draw is needed, otherwise whether every witness satisfies
   * a^(p-1) mod p == 1.
   */
  function FermatOutcome(p: int, tests: int, draws: seq<int>): (r: Result<bool>)
    requires p >= 3 ==> |draws| >= tests
    ensures r.Err? <==> tests >= 1 && p < 3
    ensures r.Err? ==> r.error == DomainError
    ensures tests <= 0 ==> r == Ok(true)
    ensures p >= 3 ==> (r == Ok(true) <==> forall i :: 0 <= i < tests ==> Pow(draws[i], p - 1) % p == 1)
  {
    if tests >= 1 && p < 3 then Err(DomainError)
    else Ok(forall i :: 0 <= i < tests ==> ModPow(draws[i], p - 1, p) == 1)
  }

  /** Draws that randint(2, p - 1) can yield: at least tests of them, all in range. */
  predicate ValidWitnesses(p: int, tests: int, draws: seq<int>)
  {
    p >= 3 ==> |draws| >= tests && forall i :: 0 <= i < |draws| ==> 2 <= draws[i] <= p - 1
  }

  /** prime_test(p, tests), with the witnesses taken from draws in order. */
  method PrimeTest(p: int, tests: int, draws: seq<int>) returns (r: Result<bool>)
    requires ValidWitnesses(p, tests, draws)
    ensures r == FermatOutcome(p, tests, draws)
  {
    if tests >= 1 && p < 3 {
      return Err(DomainError);
    }
    var test := 0;
    while test < tests
      invariant 0 <= test <= |draws| && (test == 0 || (p >= 3 && test <= tests))
      invariant forall i :: 0 <= i < test ==> ModPow(draws[i], p - 1, p) == 1
    {
      var a := draws[test];
      var x := FastModPwr(a, p - 1, p);
      if x != 1 {
        return Ok(false);
      }
      test := test + 1;
    }
    return Ok(true);
  }

  /** Fermat's little theorem as the test sees it: a prime passes for every witness. */
  lemma PrimesPassFermat(p: nat, tests: int, draws: seq<int>)
    requires Prime(p) && p >= 3 && ValidWitnesses(p, tests, draws)
    ensures FermatOutcome(p, tests, draws) == Ok(true)
  {
    forall i | 0 <= i < tests
      ensures ModPow(draws[i], p - 1, p) == 1
    {
      var a: nat := draws[i];
      DivModUnique(a, p, 0, a);
      FermatLittle(a, p);
    }
  }

  /** An even p >= 4 fails the test whenever the witness p - 1 is drawn. */
  lemma EvenFailsWithMinusOne(p: nat)
    requires p >= 4 && p % 2 == 0
    ensures ModPow(p - 1, p - 1, p) != 1
  {
    // (p - 1)^(p - 1) == (-1)^(p - 1) == -1 (mod p), as p - 1 is odd
    MinusOnePower(p, p - 1);
  }

  /** Multiplying by p - 1 swaps the residues 1 and p - 1. */
  lemma MinusOneStep(p: int, x: int)
    requires p >= 3
    ensures x % p == 1 ==> ((p - 1) * x) % p == p - 1
    ensures x % p == p - 1 ==> ((p - 1) * x) % p == 1
  {
    var r := x % p;
    ModMulRight(p - 1, x, p);
    if r == 1 {
      assert (p - 1) * r == p - 1;
      DivModUnique(p - 1, p, 0, p - 1);
    } else if r == p - 1 {
      MinusOneSquared(p);
    }
  }

  lemma MinusOneSquared(p: int)
    requires p >= 3
    ensures ((p - 1) * (p - 1)) % p == 1
  {
    assert (p - 1) * (p - 1) == p * (p - 2) + 1;
    DivModUnique((p - 1) * (p - 1), p, p - 2, 1);
  }

  /** (p - 1)^k is congruent to 1 for even k and to p - 1 for odd k. */
  lemma {:induction false} MinusOnePower(p: int, k: nat)
    requires p >= 3
    ensures Pow(p - 1, k) % p == (if k % 2 == 0 then 1 else p - 1)
  {
    if k > 0 {
      assert Pow(p - 1, k) == (p - 1) * Pow(p - 1, k - 1);
      MinusOnePower(p, k - 1);
      MinusOneStep(p, Pow(p - 1, k - 1));
    }
  }

  // ---------------------------------------------------------------------
  // generate_prime (RSALIB.py:99-110)
  // ---------------------------------------------------------------------

  /** prime_test's default number of rounds. */
  const FermatRounds := 15

  /** One value drawn by randint(a, b), with the witnesses its prime_test drew. */
  datatype Candidate = Candidate(value: int, witnesses: seq<int>)

  /** Every candidate lies in [a, b] and carries witnesses prime_test can draw. */
  predicate ValidCandidates(a: int, b: int, cs: seq<Candidate>)
  {
    WellDrawn(cs) && forall i :: 0 <= i < |cs| ==> a <= cs[i].value <= b
  }

  /** Every candidate carries witnesses prime_test can draw for it. */
  predicate WellDrawn(cs: seq<Candidate>)
  {
    forall i :: 0 <= i < |cs| ==> ValidWitnesses(cs[i].value, FermatRounds, cs[i].witnesses)
  }

  /** Whether generate_prime(a, _) stops at the candidate c. */
  function Accepts(a: int, c: Candidate): (r: Result<bool>)
    requires ValidWitnesses(c.value, FermatRounds, c.witnesses)
    ensures r.Err? <==> c.value < 3
    ensures r == Ok(true) ==> c.value >= 3 && (a <= 32 ==> Prime(c.value))
  {
    match FermatOutcome(c.value, FermatRounds, c.witnesses)
    case Err(e) => Err(e)
    case Ok(passed) => Ok(passed && (a > 32 || TrialDivisionAccepts(c.value as nat)))
  }

  /**
   * The value generate_prime(a, b) returns when randint yields the
   * candidates cs in order: the first accepted one, an error raised on
   * the way, or None once the draws are exhausted.
   */
  function Search(a: int, cs: seq<Candidate>): (r: Result<Option<int>>)
    requires WellDrawn(cs)
    ensures r.Ok? && r.value.Some? ==> r.value.value >= 3
  {
    if cs == [] then Ok(None)
    else match Accepts(a, cs[0])
      case Err(e) => Err(e)
      case Ok(stop) => if stop then Ok(Some(cs[0].value)) else Search(a, cs[1..])
  }

  /** generate_prime(a, b): draw candidates until one passes the tests. */
  method GeneratePrime(a: int, b: int, cs: seq<Candidate>) returns (r: Result<Option<int>>)
    requires a <= b ==> ValidCandidates(a, b, cs)
    ensures a > b ==> r == Err(DomainError)
    ensures a <= b ==> WellDrawn(cs)
    ensures a <= b ==> r == Search(a, cs)
  {
    if a > b {
      return Err(DomainError);
    }
    var k := 0;
    while k < |cs|
      invariant 0 <= k <= |cs|
      invariant Search(a, cs) == Search(a, cs[k..])
    {
      assert cs[k..][1..] == cs[k + 1..];
      var c := cs[k];
      var passed := PrimeTest(c.value, FermatRounds, c.witnesses);
      if passed.Err? {
        return Err(passed.error);
      }
      if passed.value {
        var found := a > 32;
        if !found {
          found := IsPrime(c.value as nat);
        }
        if found {
          return Ok(Some(c.value));
        }
      }
      k := k + 1;
    }
    return Ok(None);
  }

  /**
   * A returned value is one of the candidates, lies in [a, b], is at
   * least 3 and passed all Fermat rounds; for a <= 32 it is also prime.
   */
  lemma {:induction false} SearchResult(a: int, b: int, cs: seq<Candidate>, p: int)
    requires ValidCandidates(a, b, cs) && Search(a, cs) == Ok(Some(p))
    ensures a <= p <= b && p >= 3
    ensures exists i :: 0 <= i < |cs| && cs[i].value == p &&
              FermatOutcome(p, FermatRounds, cs[i].witnesses) == Ok(true)
    ensures a <= 32 ==> Prime(p) && p % 2 == 1
  {
    assert ValidCandidates(a, b, cs[1..]);
    if Accepts(a, cs[0]) != Ok(true) {
      SearchResult(a, b, cs[1..], p);
      var i :| 0 <= i < |cs[1..]| && cs[1..][i].value == p &&
               FermatOutcome(p, FermatRounds, cs[1..][i].witnesses) == Ok(true);
      assert cs[i + 1] == cs[1..][i];
    }
  }

  /** A prime p >= 3 is odd. */
  lemma OddPrime(p: int)
    requires Prime(p) && p >= 3
    ensures p % 2 == 1
  {
    assert !Divides(2, p);
  }

  /**
   * When every candidate is at least 3, generate_prime raises nothing, and
   * it returns a value as soon as one of the candidates is prime.
   */
  lemma {:induction false} SearchFindsPrime(a: int, b: int, cs: seq<Candidate>)
    requires a >= 3 && ValidCandidates(a, b, cs)
    ensures Search(a, cs).Ok?
    ensures (exists i :: 0 <= i < |cs| && Prime(cs[i].value)) ==> Search(a, cs).value.Some?
  {
    if cs != [] {
      assert ValidCandidates(a, b, cs[1..]);
      SearchFindsPrime(a, b, cs[1..]);
      var c := cs[0];
      if Prime(c.value) {
        PrimesPassFermat(c.value, FermatRounds, c.witnesses);
        OddPrime(c.value);
      } else if exists i :: 0 <= i < |cs| && Prime(cs[i].value) {
        var i :| 0 <= i < |cs| && Prime(cs[i].value);
        assert cs[1..][i - 1] == cs[i];
      }
    }
  }
}
