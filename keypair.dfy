/**
 * GenerateKeypair: the Fermat-resistant prime-pair loop (Keypair.generatePrimeNumbers)
 * and the key assembly of main.
 */
module GenerateKeypair {
  import opened Wrappers
  import opened BigIntegers
  import MontgomeryReduction
  import ChineseRemainderTheorem

  /** The public exponent. */
  const E: nat := 65537

  /**
   * The shared SecureRandom together with BigInteger.probablePrime. The
   * random source is abstract: pick(i, b) is the value its i-th successful
   * draw yields when b bits are asked for, and draws counts the draws so far.
   */
  class PrimeSource {
    const pick: (nat, nat) -> nat
    var draws: nat

    /** Every draw of b >= 2 bits is a prime of exactly b bits. */
    ghost predicate Valid()
    {
      forall i: nat, b: nat :: 2 <= b ==> IsPrime(pick(i, b)) && BitLength(pick(i, b)) == b
    }

    constructor (pick: (nat, nat) -> nat)
      ensures this.pick == pick && draws == 0
    {
      this.pick := pick;
      draws := 0;
    }

    /** BigInteger.probablePrime(bitLength, rnd): fails below 2 bits without consuming randomness. */
    method ProbablePrime(bitLength: int) returns (r: Result<nat>)
      modifies this
      ensures bitLength < 2 ==> r == Err(BitLengthTooSmall) && draws == old(draws)
      ensures bitLength >= 2 ==> r == Ok(pick(old(draws), bitLength)) && draws == old(draws) + 1
    {
      if bitLength < 2 {
        return Err(BitLengthTooSmall);
      }
      r := Ok(pick(draws, bitLength));
      draws := draws + 1;
    }
  }

  /** The pair drawn on attempt j of a search that started with `start` draws consumed. */
  function Attempt(rnd: PrimeSource, start: nat, bitLen: int, j: nat): (nat, nat)
    requires j >= 1 && bitLen - j >= 2
  {
    (rnd.pick(start + 2 * j - 2, bitLen + j), rnd.pick(start + 2 * j - 1, bitLen - j))
  }

  /** Every attempt before attempt k kept q at two bits or more and failed the acceptance test. */
  predicate RejectedBefore(rnd: PrimeSource, start: nat, bitLen: int, k: nat)
  {
    forall j :: 1 <= j < k ==>
      bitLen - j >= 2 && !FermatResistant(Attempt(rnd, start, bitLen, j).0, Attempt(rnd, start, bitLen, j).1)
  }

  /** A rejected attempt k extends the run of rejected attempts by one. */
  lemma RejectedStep(rnd: PrimeSource, start: nat, bitLen: int, k: nat)
    requires RejectedBefore(rnd, start, bitLen, k)
    requires k >= 1 && bitLen - k >= 2
    requires !FermatResistant(Attempt(rnd, start, bitLen, k).0, Attempt(rnd, start, bitLen, k).1)
    ensures RejectedBefore(rnd, start, bitLen, k + 1)
  {
  }

  /**
   * The first attempt from attempt i on whose pair passes the acceptance test,
   * or None when q falls below 2 bits before any attempt passes.
   */
  function FirstAccepted(rnd: PrimeSource, start: nat, bitLen: int, i: nat): (r: Option<nat>)
    requires i >= 1
    ensures r.Some? ==> i <= r.value && bitLen - r.value >= 2
    ensures r.Some? ==> FermatResistant(Attempt(rnd, start, bitLen, r.value).0, Attempt(rnd, start, bitLen, r.value).1)
    ensures r.Some? ==> forall j :: i <= j < r.value ==>
      bitLen - j >= 2 && !FermatResistant(Attempt(rnd, start, bitLen, j).0, Attempt(rnd, start, bitLen, j).1)
    ensures r.None? ==> forall j :: i <= j && bitLen - j >= 2 ==>
      !FermatResistant(Attempt(rnd, start, bitLen, j).0, Attempt(rnd, start, bitLen, j).1)
    decreases bitLen - i
  {
    if bitLen - i < 2 then None
    else if FermatResistant(Attempt(rnd, start, bitLen, i).0, Attempt(rnd, start, bitLen, i).1) then Some(i)
    else FirstAccepted(rnd, start, bitLen, i + 1)
  }

  /** A loop that stops at a passing attempt k after rejecting all before it stopped at the first accepted one. */
  lemma AcceptedIsFirst(rnd: PrimeSource, start: nat, bitLen: int, k: nat)
    requires k >= 1 && bitLen - k >= 2
    requires RejectedBefore(rnd, start, bitLen, k)
    requires FermatResistant(Attempt(rnd, start, bitLen, k).0, Attempt(rnd, start, bitLen, k).1)
    ensures FirstAccepted(rnd, start, bitLen, 1) == Some(k)
  {
  }

  /** A loop that rejected every attempt until q fell below 2 bits found no acceptable attempt. */
  lemma ExhaustedIsNone(rnd: PrimeSource, start: nat, bitLen: int, k: nat)
    requires k >= 1 && bitLen - k < 2
    requires RejectedBefore(rnd, start, bitLen, k)
    ensures FirstAccepted(rnd, start, bitLen, 1) == None
  {
  }

  /** The acceptance test of the loop: |p - q| > isqrt(n >> 1) for n = p * q. */
  predicate FermatResistant(p: nat, q: nat)
  {
    Abs(p - q) > ISqrt(p * q / 2)
  }

  function Abs(x: int): nat
  {
    if x < 0 then -x else x
  }

  /** The test without the square root: the squared distance of p and q exceeds floor(n / 2). */
  lemma FermatResistantIff(p: nat, q: nat)
    ensures FermatResistant(p, q) <==> (p - q) * (p - q) > p * q / 2
    ensures FermatResistant(p, q) ==> p != q
  {
    var y := p * q / 2;
    var t, d := ISqrt(y), Abs(p - q);
    AbsSquare(p - q);
    AboveRoot(d, t, y);
  }

  /** Squaring forgets the sign, so |p - q|^2 can stand for (p - q)^2 in FermatResistantIff. */
  lemma AbsSquare(x: int)
    ensures Abs(x) * Abs(x) == x * x
  {
  }

  /** For t = isqrt(y): d > t exactly when d * d > y. */
  lemma AboveRoot(d: nat, t: nat, y: nat)
    requires t * t <= y < (t + 1) * (t + 1)
    ensures d > t <==> d * d > y
  {
    if d > t {
      MulLeftMonotone(d, t + 1, d);
      MulLeftMonotone(t + 1, t + 1, d);
    } else {
      MulLeftMonotone(d, d, t);
      MulLeftMonotone(t, d, t);
    }
  }

  /** The Java fields p, q, n of one candidate key. */
  class Keypair {
    var p: nat
    var q: nat
    var n: nat

    constructor ()
      ensures p == 0 && q == 0 && n == 0
    {
      p, q, n := 0, 0, 0;
    }

    /**
     * Keypair.generatePrimeNumbers: attempt k (counting from 1) draws p at
     * bitLen + k bits and q at bitLen - k bits, and the loop stops at the
     * first pair that passes the Fermat test. probablePrime fails as soon as
     * bitLen - k drops below 2, which bounds the number of attempts.
     */
    static method GeneratePrimeNumbers(bitLen: int, rnd: PrimeSource) returns (r: Result<Keypair>, attempts: nat)
      modifies rnd
      ensures attempts >= 1
      ensures RejectedBefore(rnd, old(rnd.draws), bitLen, attempts)
      ensures r.Ok? ==> fresh(r.value) && bitLen - attempts >= 2
      ensures r.Ok? ==> (r.value.p, r.value.q) == Attempt(rnd, old(rnd.draws), bitLen, attempts)
      ensures r.Ok? ==> r.value.n == r.value.p * r.value.q && FermatResistant(r.value.p, r.value.q)
      ensures r.Ok? ==> rnd.draws == old(rnd.draws) + 2 * attempts
      ensures r.Err? ==> r.error == BitLengthTooSmall && attempts == (if bitLen >= 2 then bitLen - 1 else 1)
      ensures r.Err? ==> rnd.draws == old(rnd.draws) + 2 * (attempts - 1) + (if bitLen + attempts >= 2 then 1 else 0)
    {
      ghost var start := rnd.draws;
      var keypair := new Keypair();
      attempts := 0;
      var pass := false;
      while !pass
        invariant attempts >= 1 ==> bitLen - attempts >= 2
        invariant rnd.draws == start + 2 * attempts
        invariant RejectedBefore(rnd, start, bitLen, attempts)
        invariant attempts == 0 ==> !pass
        invariant attempts >= 1 ==> (keypair.p, keypair.q) == Attempt(rnd, start, bitLen, attempts)
        invariant attempts >= 1 ==> keypair.n == keypair.p * keypair.q && pass == FermatResistant(keypair.p, keypair.q)
        decreases bitLen - attempts
      {
        if attempts >= 1 {
          RejectedStep(rnd, start, bitLen, attempts);
        }
        attempts := attempts + 1;
        var p := rnd.ProbablePrime(bitLen + attempts);
        if p.Err? {
          return Err(p.error), attempts;
        }
        keypair.p := p.value;
        var q := rnd.ProbablePrime(bitLen - attempts);
        if q.Err? {
          return Err(q.error), attempts;
        }
        keypair.q := q.value;
        assert (keypair.p, keypair.q) == Attempt(rnd, start, bitLen, attempts);
        MulLeftMonotone(keypair.p, 0, keypair.q);
        keypair.n := keypair.p * keypair.q;
        var diff := Abs(keypair.p - keypair.q);
        var threshold := ISqrt(keypair.n / 2);
        pass := diff > threshold;
      }
      r := Ok(keypair);
    }
  }

  /** The public-key record of main: e, n, the Montgomery constants of n and the block size. */
  datatype PublicKey = PublicKey(e: nat, n: nat, montgomery: MontgomeryReduction.MontgomeryConstants, blockSize: nat)

  /** The private-key record of main: d, n, p, q and the CRT constants. */
  datatype PrivateKey = PrivateKey(d: nat, n: nat, p: nat, q: nat, crt: ChineseRemainderTheorem.CrtConstants)

  /** Integer.parseInt(arg) / 2: Java's int division truncates toward zero. */
  function HalveKeyLength(arg: int): (bitLen: int)
    ensures arg >= 0 ==> 0 <= 2 * bitLen <= arg <= 2 * bitLen + 1
    ensures arg < 0 ==> 2 * bitLen - 1 <= arg <= 2 * bitLen <= 0
  {
    if arg >= 0 then arg / 2 else -((-arg) / 2)
  }

  /**
   * The arithmetic of main once p and q are drawn: n = p * q, e = 65537,
   * blockSize = bitLength(n) / 8, phi = (p - 1)(q - 1), d = e^-1 mod phi and
   * the Montgomery and CRT constants. Fails exactly when e has no inverse
   * modulo phi or q has none modulo p.
   */
  function DeriveKeys(p: nat, q: nat): (r: Result<(PublicKey, PrivateKey)>)
    requires p >= 2 && q >= 2
    ensures r.Ok? <==> HasInverse(E, (p - 1) * (q - 1)) && HasInverse(q, p)
    ensures r.Err? ==> r.error == NotInvertible
    ensures r.Ok? ==>
      var (pub, priv) := r.value;
      pub.e == E && pub.n == p * q && priv.n == p * q && priv.p == p && priv.q == q
      && pub.blockSize == BitLength(p * q) / 8
      && pub.montgomery == MontgomeryReduction.ConstantsFor(p * q)
      && IsInverse(E, priv.d, (p - 1) * (q - 1))
      && ChineseRemainderTheorem.ConstantsFor(p, q, priv.d) == Ok(priv.crt)
  {
    var n := p * q;
    MulLeftMonotone(p, 1, q);
    var blockSize := BitLength(n) / 8;
    var nMR := MontgomeryReduction.ConstantsFor(n);
    var phi := (p - 1) * (q - 1);
    MulLeftMonotone(p - 1, 1, q - 1);
    match ModInverse(E, phi)
    case Err(e) => Err(e)
    case Ok(d) =>
      match ChineseRemainderTheorem.ConstantsFor(p, q, d)
      case Err(e) => Err(e)
      case Ok(crt) => Ok((PublicKey(E, n, nMR, blockSize), PrivateKey(d, n, p, q, crt)))
  }

  /**
   * For a pair the loop accepts, q is always invertible modulo p, so the only
   * way key derivation can still fail is an exponent e with no inverse modulo phi.
   */
  lemma GeneratedPairDerives(p: nat, q: nat)
    requires IsPrime(p) && IsPrime(q) && FermatResistant(p, q)
    ensures DeriveKeys(p, q).Ok? <==> HasInverse(E, (p - 1) * (q - 1))
  {
    FermatResistantIff(p, q);
    ChineseRemainderTheorem.DistinctPrimesInvertible(p, q);
  }

  /**
   * The CRT exponents derived from the private exponent d of DeriveKeys are
   * private exponents for p and q on their own: e * dp = 1 (mod p - 1) and
   * e * dq = 1 (mod q - 1).
   */
  lemma CrtExponentsInvertE(p: nat, q: nat, d: nat, crt: ChineseRemainderTheorem.CrtConstants)
    requires IsInverse(E, d, (p - 1) * (q - 1))
    requires ChineseRemainderTheorem.ConstantsFor(p, q, d) == Ok(crt)
    ensures (E * crt.dp) % (p - 1) == 1 % (p - 1)
    ensures (E * crt.dq) % (q - 1) == 1 % (q - 1)
  {
    var phi := (p - 1) * (q - 1);
    ExponentFactor(E, d, p - 1, q - 1);
    assert (q - 1) * (p - 1) == phi;
    ExponentFactor(E, d, q - 1, p - 1);
  }

  /** If e * d = 1 modulo a * b then e * (d mod a) = 1 modulo a. */
  lemma ExponentFactor(e: int, d: int, a: int, b: int)
    requires a > 0 && b > 0 && (e * d) % (a * b) == 1 % (a * b)
    ensures (e * (d % a)) % a == 1 % a
  {
    var m := a * b;
    MulLeftMonotone(a, 1, b);
    var k := (e * d) / m;
    var one := 1 % m;
    assert e * d == m * k + one;
    assert m * k == a * (b * k);
    ModMulRight(e, d, a);
    ModAddMultiple(a, b * k, one);
    if m == 1 {
      assert a == 1;
    } else {
      DivModUnique(1, m, 0, 1);
    }
  }

  /** Under a valid source, attempt k draws two primes of bitLen + k and bitLen - k bits. */
  lemma ValidAttempt(rnd: PrimeSource, start: nat, bitLen: int, k: nat)
    requires rnd.Valid()
    requires k >= 1 && bitLen - k >= 2
    ensures IsPrime(Attempt(rnd, start, bitLen, k).0) && BitLength(Attempt(rnd, start, bitLen, k).0) == bitLen + k
    ensures IsPrime(Attempt(rnd, start, bitLen, k).1) && BitLength(Attempt(rnd, start, bitLen, k).1) == bitLen - k
  {
    var i := start + 2 * k - 2;
    assert IsPrime(rnd.pick(i, bitLen + k)) && BitLength(rnd.pick(i, bitLen + k)) == bitLen + k;
    assert IsPrime(rnd.pick(i + 1, bitLen - k)) && BitLength(rnd.pick(i + 1, bitLen - k)) == bitLen - k;
  }

  /**
   * What main yields for a valid random source whose search starts with
   * `start` draws consumed: the keys derived from the first accepted pair, or
   * "bit length too small" when no attempt passes before q falls below 2 bits.
   */
  ghost function Outcome(rnd: PrimeSource, start: nat, bitLen: int): (r: Result<(PublicKey, PrivateKey)>)
    requires rnd.Valid()
    ensures r.Err? ==> r.error == BitLengthTooSmall || r.error == NotInvertible
    ensures FirstAccepted(rnd, start, bitLen, 1).None? ==> r == Err(BitLengthTooSmall)
    ensures r.Ok? ==>
      var priv := r.value.1;
      FirstAccepted(rnd, start, bitLen, 1).Some?
      && (priv.p, priv.q) == Attempt(rnd, start, bitLen, FirstAccepted(rnd, start, bitLen, 1).value)
  {
    var a := FirstAccepted(rnd, start, bitLen, 1);
    if a.None? then Err(BitLengthTooSmall)
    else
      var pair := Attempt(rnd, start, bitLen, a.value);
      ValidAttempt(rnd, start, bitLen, a.value);
      DeriveKeys(pair.0, pair.1)
  }

  /** main fails with "bit length too small" exactly when no attempt whose q keeps 2 bits passes the test. */
  lemma OutcomeExhausted(rnd: PrimeSource, start: nat, bitLen: int)
    requires rnd.Valid()
    ensures Outcome(rnd, start, bitLen) == Err(BitLengthTooSmall) <==> forall j :: 1 <= j && bitLen - j >= 2 ==>
      !FermatResistant(Attempt(rnd, start, bitLen, j).0, Attempt(rnd, start, bitLen, j).1)
  {
    var a := FirstAccepted(rnd, start, bitLen, 1);
    if a.Some? {
      var pair := Attempt(rnd, start, bitLen, a.value);
      ValidAttempt(rnd, start, bitLen, a.value);
      assert Outcome(rnd, start, bitLen) == DeriveKeys(pair.0, pair.1);
    }
  }

  /**
   * When some attempt passes, main's keys come from that pair: two primes whose
   * bit lengths straddle bitLen and add up to 2 * bitLen, and derivation
   * succeeds exactly when e is invertible modulo phi.
   */
  lemma OutcomeAccepted(rnd: PrimeSource, start: nat, bitLen: int)
    requires rnd.Valid()
    requires FirstAccepted(rnd, start, bitLen, 1).Some?
    ensures
      var pair := Attempt(rnd, start, bitLen, FirstAccepted(rnd, start, bitLen, 1).value);
      var (p, q) := pair;
      IsPrime(p) && IsPrime(q) && FermatResistant(p, q)
      && BitLength(p) + BitLength(q) == 2 * bitLen
      && BitLength(q) < bitLen < BitLength(p)
      && Outcome(rnd, start, bitLen) == DeriveKeys(p, q)
      && (Outcome(rnd, start, bitLen).Ok? <==> HasInverse(E, (p - 1) * (q - 1)))
  {
    var k := FirstAccepted(rnd, start, bitLen, 1).value;
    var pair := Attempt(rnd, start, bitLen, k);
    ValidAttempt(rnd, start, bitLen, k);
    GeneratedPairDerives(pair.0, pair.1);
  }

  /**
   * main: halve the requested key length, search for a Fermat-resistant pair of
   * primes and derive both keys from it. Lengths below 6 bits fail on the first
   * attempt, since q would then have fewer than 2 bits.
   */
  method Run(arg: int, rnd: PrimeSource) returns (r: Result<(PublicKey, PrivateKey)>)
    requires rnd.Valid()
    modifies rnd
    ensures r == Outcome(rnd, old(rnd.draws), HalveKeyLength(arg))
    ensures arg < 6 ==> r == Err(BitLengthTooSmall)
    ensures FirstAccepted(rnd, old(rnd.draws), HalveKeyLength(arg), 1).Some? ==>
      rnd.draws == old(rnd.draws) + 2 * FirstAccepted(rnd, old(rnd.draws), HalveKeyLength(arg), 1).value
    ensures FirstAccepted(rnd, old(rnd.draws), HalveKeyLength(arg), 1).None? ==>
      rnd.draws == old(rnd.draws) + (if HalveKeyLength(arg) >= 2 then 2 * HalveKeyLength(arg) - 3
                                     else if HalveKeyLength(arg) >= 1 then 1 else 0)
    ensures r.Ok? ==>
      var priv := r.value.1;
      priv.p >= 2 && priv.q >= 2
      && r == DeriveKeys(priv.p, priv.q)
      && FermatResistant(priv.p, priv.q)
      && IsPrime(priv.p) && IsPrime(priv.q)
      && BitLength(priv.p) + BitLength(priv.q) == 2 * HalveKeyLength(arg)
      && BitLength(priv.q) < HalveKeyLength(arg) < BitLength(priv.p)
  {
    ghost var start := rnd.draws;
    var bitLen := HalveKeyLength(arg);
    var keypair, attempts := Keypair.GeneratePrimeNumbers(bitLen, rnd);
    if keypair.Err? {
      ExhaustedIsNone(rnd, start, bitLen, attempts);
      return Err(keypair.error);
    }
    var p, q := keypair.value.p, keypair.value.q;
    AcceptedIsFirst(rnd, start, bitLen, attempts);
    r := DeriveKeys(p, q);
  }
}
