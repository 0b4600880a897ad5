/**
 * The part of java.math.BigInteger that the key generator relies on, written
 * over Dafny's unbounded integers: shiftLeft of ONE, bitLength, sqrt, mod,
 * modPow and modInverse, with the facts about Euclidean division they need.
 */
module BigIntegers {
  import opened Wrappers

  /** 2^k, the value of BigInteger.ONE.shiftLeft(k). */
  function Pow2(k: nat): (r: nat)
    ensures r >= 1
  {
    if k == 0 then 1 else 2 * Pow2(k - 1)
  }

  lemma {:induction false} Pow2Add(a: nat, b: nat)
    ensures Pow2(a + b) == Pow2(a) * Pow2(b)
    decreases a
  {
    if a > 0 {
      Pow2Add(a - 1, b);
      assert Pow2(a + b) == 2 * Pow2(a - 1 + b);
    }
  }

  lemma {:induction false} Pow2Monotone(i: nat, j: nat)
    requires i <= j
    ensures Pow2(i) <= Pow2(j)
    decreases j
  {
    if i < j {
      Pow2Monotone(i, j - 1);
    }
  }

  /** BigInteger.bitLength of a non-negative value: the number of bits without a sign bit. */
  function BitLength(x: nat): (b: nat)
    ensures b == 0 <==> x == 0
    ensures x > 0 ==> Pow2(b - 1) <= x < Pow2(b)
  {
    if x == 0 then 0 else 1 + BitLength(x / 2)
  }

  /** The bounds of BitLength determine it: any b with 2^(b-1) <= x < 2^b is BitLength(x). */
  lemma BitLengthUnique(x: nat, b: nat)
    requires b >= 1 && Pow2(b - 1) <= x < Pow2(b)
    ensures BitLength(x) == b
  {
    var c := BitLength(x);
    if c < b {
      Pow2Monotone(c, b - 1);
    } else if c > b {
      Pow2Monotone(b, c - 1);
    }
  }

  lemma MulLeftMonotone(m: int, a: int, b: int)
    requires m >= 0 && a <= b
    ensures m * a <= m * b
  {
    assert m * b - m * a == m * (b - a);
  }

  /** The bounds that define floor division by a positive m. */
  lemma FloorDivBounds(x: int, m: int, f: int)
    requires m > 0 && f == x / m
    ensures f * m <= x < (f + 1) * m
  {
    assert x == m * f + x % m;
    assert (f + 1) * m == f * m + m;
  }

  /** Euclidean division is unique: a quotient and a remainder in range are the ones / and % give. */
  lemma DivModUnique(x: int, m: int, q: int, r: int)
    requires m > 0 && x == m * q + r && 0 <= r < m
    ensures x / m == q && x % m == r
  {
    var d := q - x / m;
    assert m * d == x % m - r;
    if d >= 1 {
      MulLeftMonotone(m, 1, d);
    } else if d <= -1 {
      MulLeftMonotone(m, d, -1);
    }
  }

  lemma ModAddMultiple(m: int, k: int, c: int)
    requires m > 0
    ensures (m * k + c) % m == c % m
  {
    assert m * k + c == m * (k + c / m) + c % m;
    DivModUnique(m * k + c, m, k + c / m, c % m);
  }

  lemma ModMultiple(g: int, k: int)
    requires g > 0
    ensures (g * k) % g == 0
  {
    ModAddMultiple(g, k, 0);
  }

  lemma ModMulLeft(u: int, v: int, m: int)
    requires m > 0
    ensures (u * v) % m == ((u % m) * v) % m
  {
    var q, r := u / m, u % m;
    assert u * v == (m * q + r) * v;
    assert u * v == m * (q * v) + r * v;
    ModAddMultiple(m, q * v, r * v);
  }

  lemma ModMulRight(u: int, v: int, m: int)
    requires m > 0
    ensures (u * v) % m == (u * (v % m)) % m
  {
    ModMulLeft(v, u, m);
    assert u * v == v * u;
    assert u * (v % m) == (v % m) * u;
  }

  /** A positive multiple of a positive g is at least g. */
  lemma DivisorBound(g: int, m: int)
    requires g > 0 && m > 0 && m % g == 0
    ensures g <= m
  {
    var k := m / g;
    assert m == g * k;
    if k <= 0 {
      MulLeftMonotone(g, k, 0);
      assert false;
    }
    MulLeftMonotone(g, 1, k);
  }

  /** Integer square root, the value of BigInteger.sqrt: the floor of the real square root. */
  function ISqrt(x: nat): (r: nat)
    ensures r * r <= x < (r + 1) * (r + 1)
  {
    if x == 0 then 0
    else
      var s := 2 * ISqrt(x / 4);
      ISqrtStep(x, ISqrt(x / 4), s);
      if (s + 1) * (s + 1) <= x then s + 1 else s
  }

  /** Doubling the root of x / 4 gives s with s^2 <= x < (s + 2)^2. */
  lemma ISqrtStep(x: nat, h: nat, s: nat)
    requires h * h <= x / 4 < (h + 1) * (h + 1) && s == 2 * h
    ensures s * s <= x < ((s + 1) + 1) * ((s + 1) + 1)
  {
    var y := x / 4;
    assert x == 4 * y + x % 4;
    assert s * s == 4 * (h * h);
    assert ((s + 1) + 1) * ((s + 1) + 1) == 4 * ((h + 1) * (h + 1));
    MulLeftMonotone(4, h * h, y);
    MulLeftMonotone(4, y + 1, (h + 1) * (h + 1));
  }

  lemma SquareBelow(a: nat, c: nat)
    requires a * a < (c + 1) * (c + 1)
    ensures a <= c
  {
    if a > c {
      MulLeftMonotone(a, c + 1, a);
      MulLeftMonotone(c + 1, c + 1, a);
      assert false;
    }
  }

  /** The bounds of ISqrt determine it, so the model equals whatever algorithm computes the floor root. */
  lemma ISqrtUnique(x: nat, t: nat)
    requires t * t <= x < (t + 1) * (t + 1)
    ensures ISqrt(x) == t
  {
    var r := ISqrt(x);
    SquareBelow(r, t);
    SquareBelow(t, r);
  }

  predicate Divides(d: int, x: int)
    requires d > 0
  {
    x % d == 0
  }

  /** A prime in the ordinary sense: at least 2, with no divisor strictly between 1 and itself. */
  ghost predicate IsPrime(x: int)
  {
    x >= 2 && forall d :: 2 <= d < x ==> !Divides(d, x)
  }

  /** Greatest common divisor, by Euclid's algorithm. */
  function Gcd(a: nat, b: nat): nat
    decreases b
  {
    if b == 0 then a else Gcd(b, a % b)
  }

  lemma {:induction false} GcdDivides(a: nat, b: nat)
    requires a > 0 || b > 0
    ensures Gcd(a, b) > 0 && a % Gcd(a, b) == 0 && b % Gcd(a, b) == 0
    decreases b
  {
    if b == 0 {
      ModMultiple(a, 1);
      ModMultiple(a, 0);
    } else {
      GcdDivides(b, a % b);
      var g := Gcd(b, a % b);
      assert a == b * (a / b) + a % b;
      DividesLinear(g, b, a / b, a % b);
    }
  }

  /** A common divisor of b and c divides b * k + c. */
  lemma DividesLinear(g: int, b: int, k: int, c: int)
    requires g > 0 && b % g == 0 && c % g == 0
    ensures (b * k + c) % g == 0
  {
    var s, t := b / g, c / g;
    assert b == g * s;
    assert c == g * t;
    assert b * k + c == g * (s * k + t);
    ModMultiple(g, s * k + t);
  }

  /** Extended Euclid: (g, x, y) with g = Gcd(a, b) = a*x + b*y. */
  function ExtGcd(a: nat, b: nat): (r: (nat, int, int))
    ensures r.0 == Gcd(a, b) && a * r.1 + b * r.2 == r.0
    decreases b
  {
    if b == 0 then (a, 1, 0)
    else
      var (g, x, y) := ExtGcd(b, a % b);
      BezoutStep(a, b, g, x, y);
      (g, y, x - (a / b) * y)
  }

  lemma BezoutStep(a: nat, b: nat, g: int, x: int, y: int)
    requires b > 0 && b * x + (a % b) * y == g
    ensures a * y + b * (x - (a / b) * y) == g
  {
    var q := a / b;
    assert a % b == a - b * q;
    assert (a - b * q) * y == a * y - b * (q * y);
    assert b * (x - q * y) == b * x - b * (q * y);
  }

  /** r is the inverse of a modulo m that BigInteger.modInverse returns: in [0, m) and a*r = 1 (mod m). */
  predicate IsInverse(a: int, r: int, m: int)
  {
    m > 0 && 0 <= r < m && (a * r) % m == 1 % m
  }

  ghost predicate HasInverse(a: int, m: int)
  {
    exists r :: IsInverse(a, r, m)
  }

  lemma InverseFromBezout(a: int, m: int, x: int, y: int)
    requires m > 0 && (a % m) * x + m * y == 1
    ensures IsInverse(a, x % m, m)
  {
    ModMulRight(a, x, m);
    ModMulLeft(a, x, m);
    assert (a % m) * x == m * (-y) + 1;
    ModAddMultiple(m, -y, 1);
  }

  lemma NotCoprimeNoInverse(a: int, m: int, r: int)
    requires m > 0 && Gcd(a % m, m) != 1
    ensures !IsInverse(a, r, m)
  {
    var u := a % m;
    GcdDivides(u, m);
    var g := Gcd(u, m);
    DivisorBound(g, m);
    // g >= 2 divides u and m, hence u * r and (u * r) % m = u * r - m * k, which therefore is not 1
    ModMulLeft(a, r, m);
    var k := (u * r) / m;
    assert m * (-k) + u * r == (u * r) % m;
    DividesLinear(g, u, r, 0);
    DividesLinear(g, m, -k, u * r);
    DivModUnique(1, g, 0, 1);
    DivModUnique(1, m, 0, 1);
  }

  lemma NoInverse(a: int, m: int)
    requires m > 0 && Gcd(a % m, m) != 1
    ensures !HasInverse(a, m)
  {
    forall r
      ensures !IsInverse(a, r, m)
    {
      NotCoprimeNoInverse(a, m, r);
    }
  }

  /**
   * BigInteger.modInverse: fails when m <= 0 or when a has no inverse modulo m;
   * otherwise returns the inverse in [0, m).
   */
  function ModInverse(a: int, m: int): (r: Result<nat>)
    ensures r.Ok? <==> HasInverse(a, m)
    ensures r.Ok? ==> IsInverse(a, r.value, m)
    ensures r.Err? ==> r.error == (if m <= 0 then ModulusNotPositive else NotInvertible)
  {
    if m <= 0 then Err(ModulusNotPositive)
    else
      var (g, x, y) := ExtGcd(a % m, m);
      if g != 1 then
        NoInverse(a, m);
        Err(NotInvertible)
      else
        InverseFromBezout(a, m, x, y);
        Ok(x % m)
  }

  /** The inverse modulo m is unique, so ModInverse returns exactly what BigInteger.modInverse does. */
  lemma InverseUnique(a: int, r1: int, r2: int, m: int)
    requires IsInverse(a, r1, m) && IsInverse(a, r2, m)
    ensures r1 == r2
  {
    // r1 = r1 * (a * r2) = r2 * (a * r1) = r2  (mod m)
    var w := r1 * a * r2;
    assert w == r2 * (a * r1) && w == r1 * (a * r2);
    ModMulRight(r2, a * r1, m);
    ModMulRight(r1, a * r2, m);
    ModMulRight(r2, 1, m);
    ModMulRight(r1, 1, m);
    DivModUnique(r1, m, 0, r1);
    DivModUnique(r2, m, 0, r2);
  }

  /** Exponentiation, the reference for ModPow. */
  function Pow(b: int, e: nat): int
  {
    if e == 0 then 1 else b * Pow(b, e - 1)
  }

  /** BigInteger.modPow for a non-negative exponent: b^e mod m, for a positive modulus. */
  function ModPow(b: int, e: nat, m: int): (r: int)
    requires m > 0
    ensures 0 <= r < m
    ensures r == Pow(b, e) % m
  {
    if e == 0 then 1 % m
    else
      var rest := ModPow(b, e - 1, m);
      ModMulRight(b, Pow(b, e - 1), m);
      (b * rest) % m
  }

  /** modPow with exponent ONE is reduction modulo m. */
  lemma ModPowOne(x: int, m: int)
    requires m > 0
    ensures ModPow(x, 1, m) == x % m
  {
    assert Pow(x, 1) == x * Pow(x, 0);
  }
}
