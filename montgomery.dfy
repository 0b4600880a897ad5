/** MontgomeryReduction.constantsFor: the bit length of m and R^2 mod m for the radix R = 2^bitLength. */
module MontgomeryReduction {
  import opened BigIntegers

  /** The two fields of the Java class MontgomeryReduction, kept as integers rather than their rendered strings. */
  datatype MontgomeryConstants = MontgomeryConstants(bitLength: nat, rrm: nat)

  /**
   * The radix R = 2^bitLength is the least power of two above m, and rrm is
   * R^2 reduced modulo m.
   */
  function ConstantsFor(m: int): (c: MontgomeryConstants)
    requires m > 0
    ensures c.bitLength == BitLength(m)
    ensures m < Pow2(c.bitLength) <= 2 * m
    ensures 0 <= c.rrm < m && c.rrm == (Pow2(c.bitLength) * Pow2(c.bitLength)) % m
  {
    var bitLen := BitLength(m);
    Pow2Add(bitLen, bitLen);
    MontgomeryConstants(bitLen, Pow2(bitLen * 2) % m)
  }

  /**
   * What rrm is for: a Montgomery multiplication of x by rrm (x * rrm * R^-1
   * mod m) maps x into the Montgomery domain, x * R mod m.
   */
  lemma ToMontgomeryDomain(m: int, x: int, rInv: int)
    requires m > 0
    requires IsInverse(Pow2(ConstantsFor(m).bitLength), rInv, m)
    ensures (x * ConstantsFor(m).rrm * rInv) % m == (x * Pow2(ConstantsFor(m).bitLength)) % m
  {
    var c := ConstantsFor(m);
    DomainArith(m, x, Pow2(c.bitLength), rInv, c.rrm);
  }

  lemma DomainArith(m: int, x: int, r: int, rInv: int, rr: int)
    requires m > 0 && rr == (r * r) % m && (r * rInv) % m == 1 % m
    ensures (x * rr * rInv) % m == (x * r) % m
  {
    var t, a, b := r * r, x * rInv, x * r;
    Regroup(x, rr, rInv);
    // x * rr * rInv = (t mod m) * a = t * a = (r * rInv) * b = b  (mod m)
    ModMulLeft(t, a, m);
    Regroup2(r, x, rInv);
    ModMulLeft(r * rInv, b, m);
    ModMulLeft(1, b, m);
  }

  /** Reassociation for DomainArith: brings x * rr * rInv to the form rr * (x * rInv). */
  lemma Regroup(x: int, rr: int, rInv: int)
    ensures x * rr * rInv == rr * (x * rInv)
  {
  }

  /** Reassociation for DomainArith: R^2 * (x * rInv) is (R * rInv) * (x * R). */
  lemma Regroup2(r: int, x: int, rInv: int)
    ensures (r * r) * (x * rInv) == (r * rInv) * (x * r)
  {
  }
}
