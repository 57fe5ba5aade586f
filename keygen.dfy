/**
 * Key generation of RSALIB.py: calculate_e and generate_keys, with the
 * pseudo-random draws supplied as sequences (one candidate sequence per
 * call of generate_prime, and the successive draws of randint(2, phi - 1)).
 */
module KeyGen {
  import opened Results
  import opened ModArith
  import opened NumberTheory
  import opened Primality

  /** A key (exponent, modulus): (e, n) is public, (d, n) private. */
  datatype Key = Key(exponent: int, modulus: int)

  // ---------------------------------------------------------------------
  // calculate_e (RSALIB.py:51-58)
  // ---------------------------------------------------------------------

  /** Draws that randint(2, phi - 1) can yield. */
  predicate ValidExponentDraws(phi: int, draws: seq<int>)
  {
    phi >= 3 ==> forall i :: 0 <= i < |draws| ==> 2 <= draws[i] <= phi - 1
  }

  /**
   * The outcome of calculate_e(phi) when randint(2, phi - 1) yields draws
   * in order: an error when that range is empty, otherwise the first
   * draw coprime to phi, or None once the draws are exhausted.
   */
  function ChooseE(phi: int, draws: seq<int>): (r: Result<Option<int>>)
    requires ValidExponentDraws(phi, draws)
    ensures phi < 3 <==> r == Err(DomainError)
    ensures r.Ok? && r.value.Some? ==>
              2 <= r.value.value <= phi - 1 && Gcd(phi, r.value.value) == 1 && r.value.value in draws
  {
    if phi < 3 then Err(DomainError)
    else if draws == [] then Ok(None)
    else if Gcd(phi, draws[0]) == 1 then Ok(Some(draws[0]))
    else ChooseE(phi, draws[1..])
  }

  /** calculate_e(phi): draw until the draw is coprime to phi. */
  method CalculateE(phi: int, draws: seq<int>) returns (r: Result<Option<int>>)
    requires ValidExponentDraws(phi, draws)
    ensures r == ChooseE(phi, draws)
  {
    if phi < 3 {
      return Err(DomainError);
    }
    var k := 0;
    while k < |draws|
      invariant 0 <= k <= |draws|
      invariant ChooseE(phi, draws) == ChooseE(phi, draws[k..])
    {
      assert draws[k..][1..] == draws[k + 1..];
      var e := draws[k];
      var g := Gcd(phi, e);
      if g == 1 {
        return Ok(Some(e));
      }
      k := k + 1;
    }
    return Ok(None);
  }

  /** A draw coprime to phi ends the search: calculate_e then returns some exponent. */
  lemma {:induction false} ChooseEFinds(phi: int, draws: seq<int>, i: int)
    requires phi >= 3 && ValidExponentDraws(phi, draws)
    requires 0 <= i < |draws| && Gcd(phi, draws[i]) == 1
    ensures ChooseE(phi, draws).Ok? && ChooseE(phi, draws).value.Some?
  {
    if Gcd(phi, draws[0]) != 1 {
      assert draws[1..][i - 1] == draws[i];
      ChooseEFinds(phi, draws[1..], i - 1);
    }
  }

  // ---------------------------------------------------------------------
  // generate_keys (RSALIB.py:66-76)
  // ---------------------------------------------------------------------

  /**
   * The inclusive range both primes are drawn from: pwr is half the key
   * size rounded up, and the range runs from 2^(pwr-1) to 2^pwr.
   */
  function PrimeRange(keysize: int): (r: (int, int))
    requires keysize >= 1
    ensures 1 <= r.0 && r.1 == 2 * r.0
    ensures keysize <= 12 ==> r.0 <= 32
  {
    var pwr := keysize / 2 + keysize % 2;
    PowPositive(2, pwr - 1);
    if keysize <= 12 then
      PowIncreasing(2, pwr - 1, 5);
      (Pow(2, pwr - 1), Pow(2, pwr))
    else
      (Pow(2, pwr - 1), Pow(2, pwr))
  }

  /** What the loop `while p == q` does with a q returned by one call of generate_prime. */
  function ContinueDistinct(a: int, p: int, q: Result<Option<int>>, calls: seq<seq<Candidate>>): Result<Option<int>>
    requires forall j :: 0 <= j < |calls| ==> WellDrawn(calls[j])
    decreases |calls|, 1
  {
    if q == Ok(Some(p)) then DistinctSearch(a, p, calls) else q
  }

  /**
   * The q of generate_keys when its successive calls of generate_prime see
   * the candidate sequences calls: the first result different from p.
   */
  function DistinctSearch(a: int, p: int, calls: seq<seq<Candidate>>): (r: Result<Option<int>>)
    requires forall j :: 0 <= j < |calls| ==> WellDrawn(calls[j])
    ensures r.Ok? && r.value.Some? ==> r.value.value != p && r.value.value >= 3
    decreases |calls|, 0
  {
    if calls == [] then Ok(None)
    else ContinueDistinct(a, p, Search(a, calls[0]), calls[1..])
  }

  /** The draws generate_prime and calculate_e can see in generate_keys(keysize). */
  predicate ValidPrimeDraws(keysize: int, pDraws: seq<Candidate>, qCalls: seq<seq<Candidate>>)
    requires keysize >= 1
  {
    var (lo, hi) := PrimeRange(keysize);
    ValidCandidates(lo, hi, pDraws) && forall j :: 0 <= j < |qCalls| ==> ValidCandidates(lo, hi, qCalls[j])
  }

  /** The primes p and q that generate_keys(keysize) settles on. */
  function PrimePair(keysize: int, pDraws: seq<Candidate>, qCalls: seq<seq<Candidate>>): (r: Result<Option<(int, int)>>)
    requires keysize >= 1 && ValidPrimeDraws(keysize, pDraws, qCalls)
    ensures r.Ok? && r.value.Some? ==>
              r.value.value.0 >= 3 && r.value.value.1 >= 3 && r.value.value.0 != r.value.value.1
  {
    var (lo, hi) := PrimeRange(keysize);
    assert WellDrawn(pDraws);
    assert forall j :: 0 <= j < |qCalls| ==> WellDrawn(qCalls[j]);
    match Search(lo, pDraws)
    case Err(e) => Err(e)
    case Ok(None) => Ok(None)
    case Ok(Some(p)) =>
      match DistinctSearch(lo, p, qCalls)
      case Err(e) => Err(e)
      case Ok(None) => Ok(None)
      case Ok(Some(q)) => Ok(Some((p, q)))
  }

  /** The e draws are valid for the phi that the chosen primes give. */
  predicate ValidKeyDraws(keysize: int, pDraws: seq<Candidate>, qCalls: seq<seq<Candidate>>, eDraws: seq<int>)
  {
    keysize >= 1 ==>
      ValidPrimeDraws(keysize, pDraws, qCalls) &&
      match PrimePair(keysize, pDraws, qCalls)
      case Ok(Some((p, q))) => ValidExponentDraws((p - 1) * (q - 1), eDraws)
      case _ => true
  }

  /**
   * The value of generate_keys(keysize): ((e, n), (d, n)) with n = p * q,
   * e from calculate_e(phi) and d = calculate_d(e, phi).
   */
  function KeysOutcome(keysize: int, pDraws: seq<Candidate>, qCalls: seq<seq<Candidate>>, eDraws: seq<int>)
    : (r: Result<Option<(Key, Key)>>)
    requires ValidKeyDraws(keysize, pDraws, qCalls, eDraws)
    ensures keysize < 1 ==> r == Err(DomainError)
    ensures r.Ok? && r.value.Some? ==>
              r.value.value.0.modulus == r.value.value.1.modulus &&
              2 <= r.value.value.0.exponent < r.value.value.0.modulus &&
              0 <= r.value.value.1.exponent < r.value.value.1.modulus
  {
    if keysize < 1 then Err(DomainError)
    else match PrimePair(keysize, pDraws, qCalls)
      case Err(e) => Err(e)
      case Ok(None) => Ok(None)
      case Ok(Some((p, q))) =>
        PhiBounds(p, q);
        var phi, n := (p - 1) * (q - 1), p * q;
        match ChooseE(phi, eDraws)
        case Err(err) => Err(err)
        case Ok(None) => Ok(None)
        case Ok(Some(e)) => Ok(Some((Key(e, n), Key(CalculateD(e, phi), n))))
  }

  /** For p, q >= 3 the totient (p - 1) * (q - 1) lies in [4, p * q). */
  lemma PhiBounds(p: int, q: int)
    requires p >= 3 && q >= 3
    ensures 4 <= (p - 1) * (q - 1) < p * q
  {
    MulMonotone(p - 1, 2, q - 1);
    assert (p - 1) * (q - 1) == p * q - p - q + 1;
  }

  /** generate_keys(keysize). */
  method GenerateKeys(keysize: int, pDraws: seq<Candidate>, qCalls: seq<seq<Candidate>>, eDraws: seq<int>)
    returns (r: Result<Option<(Key, Key)>>)
    requires ValidKeyDraws(keysize, pDraws, qCalls, eDraws)
    ensures r == KeysOutcome(keysize, pDraws, qCalls, eDraws)
  {
    if keysize < 1 {
      return Err(DomainError);
    }
    var pwr := keysize / 2 + keysize % 2;
    var lo, hi := Pow(2, pwr - 1), Pow(2, pwr);
    var pr := GeneratePrime(lo, hi, pDraws);
    if pr.Err? {
      return Err(pr.error);
    }
    if pr == Ok(None) || qCalls == [] {
      return Ok(None);
    }
    var p := pr.value.value;
    var qr := GeneratePrime(lo, hi, qCalls[0]);
    var j := 1;
    while qr == Ok(Some(p))
      invariant 1 <= j <= |qCalls|
      invariant forall i :: 0 <= i < |qCalls| ==> WellDrawn(qCalls[i])
      invariant DistinctSearch(lo, p, qCalls) == ContinueDistinct(lo, p, qr, qCalls[j..])
      decreases |qCalls| - j
    {
      if j == |qCalls| {
        return Ok(None);
      }
      assert qCalls[j..][1..] == qCalls[j + 1..];
      qr := GeneratePrime(lo, hi, qCalls[j]);
      j := j + 1;
    }
    if !qr.Ok? {
      return Err(qr.error);
    }
    if qr.value.None? {
      return Ok(None);
    }
    var q := qr.value.value;
    PrimeProductPositive(p, q);
    var phi := (p - 1) * (q - 1);
    var n := p * q;
    var er := CalculateE(phi, eDraws);
    if !er.Ok? {
      return Err(er.error);
    }
    if er.value.None? {
      return Ok(None);
    }
    var e := er.value.value;
    var d := CalculateD(e, phi);
    return Ok(Some((Key(e, n), Key(d, n))));
  }

  /** The q found by DistinctSearch is the result of one generate_prime call. */
  lemma {:induction false} DistinctSearchFrom(a: int, b: int, p: int, calls: seq<seq<Candidate>>, q: int)
    returns (j: int)
    requires forall i :: 0 <= i < |calls| ==> WellDrawn(calls[i]) && ValidCandidates(a, b, calls[i])
    requires DistinctSearch(a, p, calls) == Ok(Some(q))
    ensures 0 <= j < |calls| && Search(a, calls[j]) == Ok(Some(q))
    decreases |calls|
  {
    if Search(a, calls[0]) == Ok(Some(p)) {
      j := DistinctSearchFrom(a, b, p, calls[1..], q);
      assert calls[1..][j] == calls[j + 1];
      j := j + 1;
    } else {
      j := 0;
    }
  }

  /**
   * A key pair from generate_keys shares the modulus n = p * q of two
   * distinct generate_prime results p and q; e is coprime to
   * phi = (p - 1) * (q - 1) and d is its inverse modulo phi, with
   * 2 <= e < phi and 0 <= d < phi. For keysize <= 12 both factors are prime.
   */
  lemma KeyPairShape(keysize: int, pDraws: seq<Candidate>, qCalls: seq<seq<Candidate>>, eDraws: seq<int>,
                     pub: Key, priv: Key) returns (p: int, q: int)
    requires ValidKeyDraws(keysize, pDraws, qCalls, eDraws)
    requires KeysOutcome(keysize, pDraws, qCalls, eDraws) == Ok(Some((pub, priv)))
    ensures keysize >= 1 && p >= 3 && q >= 3 && p != q
    ensures PrimeRange(keysize).0 <= p <= PrimeRange(keysize).1
    ensures PrimeRange(keysize).0 <= q <= PrimeRange(keysize).1
    ensures pub.modulus == priv.modulus == p * q
    ensures var phi := (p - 1) * (q - 1);
      2 <= pub.exponent < phi && Gcd(phi, pub.exponent) == 1 &&
      0 <= priv.exponent < phi && (pub.exponent * priv.exponent) % phi == 1
    ensures keysize <= 12 ==> Prime(p) && Prime(q)
  {
    var (lo, hi) := PrimeRange(keysize);
    var pair := PrimePair(keysize, pDraws, qCalls).value.value;
    p, q := pair.0, pair.1;
    SearchResult(lo, hi, pDraws, p);
    var j := DistinctSearchFrom(lo, hi, p, qCalls, q);
    SearchResult(lo, hi, qCalls[j], q);
    PrimeProductPositive(p, q);
  }
}
