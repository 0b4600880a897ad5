/** ChineseRemainderTheorem.constantsFor: the private-key constants for CRT exponentiation. */
module ChineseRemainderTheorem {
  import opened Wrappers
  import opened BigIntegers
  import BarrettReduction

  /** The five fields of the Java class ChineseRemainderTheorem, the numbers kept as integers. */
  datatype CrtConstants = CrtConstants(
    dp: nat,
    dq: nat,
    qModInvP: nat,
    brcP: BarrettReduction.BarrettConstants,
    brcQ: BarrettReduction.BarrettConstants)

  /**
   * dp = d mod (p - 1), dq = d mod (q - 1), the inverse of q modulo p and the
   * Barrett constants of p and q. modPow fails when p - 1 or q - 1 is not
   * positive, and modInverse fails when q has no inverse modulo p.
   */
  function ConstantsFor(p: int, q: int, d: int): (r: Result<CrtConstants>)
    ensures r.Ok? <==> p >= 2 && q >= 2 && HasInverse(q, p)
    ensures r.Err? ==> r.error == (if p < 2 || q < 2 then ModulusNotPositive else NotInvertible)
    ensures r.Ok? ==> r.value.dp == d % (p - 1) && r.value.dq == d % (q - 1)
    ensures r.Ok? ==> IsInverse(q, r.value.qModInvP, p)
    ensures r.Ok? ==> r.value.brcP == BarrettReduction.ConstantsFor(p)
    ensures r.Ok? ==> r.value.brcQ == BarrettReduction.ConstantsFor(q)
  {
    if p - 1 <= 0 || q - 1 <= 0 then Err(ModulusNotPositive)
    else
      var dp := ModPow(d, 1, p - 1);
      var dq := ModPow(d, 1, q - 1);
      ModPowOne(d, p - 1);
      ModPowOne(d, q - 1);
      var brcP := BarrettReduction.ConstantsFor(p);
      var brcQ := BarrettReduction.ConstantsFor(q);
      match ModInverse(q, p)
      case Err(e) => Err(e)
      case Ok(qModInvP) => Ok(CrtConstants(dp, dq, qModInvP, brcP, brcQ))
  }

  /**
   * Two distinct primes are coprime, so for them the inverse of q modulo p
   * always exists and the CRT constants can be derived for every exponent d.
   */
  lemma DistinctPrimesInvertible(p: int, q: int)
    requires IsPrime(p) && IsPrime(q) && p != q
    ensures HasInverse(q, p)
    ensures forall d :: ConstantsFor(p, q, d).Ok?
  {
    var u := q % p;
    GcdDivides(u, p);
    var g := Gcd(u, p);
    DivisorBound(g, p);
    assert 2 <= g < p ==> !Divides(g, p);
    assert p < q ==> !Divides(p, q);
    if g != 1 {
      // g divides the prime p, so g == p; then p divides q % p < p, so p divides q
      DivModUnique(u, p, 0, u);
      if q < p {
        DivModUnique(q, p, 0, q);
      }
      assert false;
    }
    var (g', x, y) := ExtGcd(u, p);
    InverseFromBezout(q, p, x, y);
  }
}
