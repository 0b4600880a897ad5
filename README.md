# GenerateKeypair — a Dafny model of the RSA key generator's numeric engine

The Java program `GenerateKeypair` draws an RSA key of a requested length and
precomputes the constants that a constrained modular-exponentiation routine
elsewhere needs: Barrett constants (shift, factor), Montgomery constants
(bit length, R² mod n) and CRT private-key constants (dp, dq, q⁻¹ mod p and
the Barrett constants of p and q). Prime pairs are redrawn until they pass a
Fermat-factorisation test, with the bit-length gap between p and q widening on
every attempt.

The model is split into modules that follow the program:

- `Wrappers` (`wrappers.dfy`): `Result` and the three `ArithmeticException`s the program can raise.
- `BigIntegers` (`bigintegers.dfy`): what `java.math.BigInteger` provides: `shiftLeft` of one (`Pow2`), `bitLength`, `sqrt`, `mod`, `modPow` and `modInverse` (extended Euclid). Each is paired with a uniqueness lemma or a reference definition, so that it agrees with the library whatever algorithm the library uses.
- `BarrettReduction`, `MontgomeryReduction`, `ChineseRemainderTheorem`: the three `constantsFor` derivations, written as functions over records of integers.
- `Hex` (`hex.dfy`): `toHex`, i.e. `"0x"` followed by `toString(16)`, and the base-16 parse that undoes it.
- `GenerateKeypair` (`keypair.dfy`): three pieces.
  - The random source with `probablePrime` is a class `PrimeSource`. It is an abstract oracle: `pick(i, b)` is the value of its i-th draw for b bits.
  - The class `Keypair` has the fields `p`, `q`, `n`. Its static method `GeneratePrimeNumbers` keeps the source's do-while loop and attempt counter.
  - `DeriveKeys` holds the straight-line arithmetic of `main`, and `Run` is `main` itself.

The loop terminates because `BigInteger.probablePrime` throws once it is asked
for fewer than 2 bits, and q is asked for `bitLen - attempts` bits. The model
turns that exception into an `Err` result. No attempt limit is added: the code
has none, and the loop ends when `probablePrime` throws below 2 bits. In the
CRT derivation, `modPow` also fails when `p - 1` or `q - 1` is not positive,
and the model returns that error as well as the one from `modInverse`.

## Model

| member | source | states |
|---|---|---|
| `BigIntegers.BitLength` | GenerateKeypair.java:86 | For x > 0 the result b satisfies 2^(b-1) ≤ x < 2^b. It is 0 exactly when x is 0. |
| `BigIntegers.BitLengthUnique` | GenerateKeypair.java:104 | Any b ≥ 1 with 2^(b-1) ≤ x < 2^b equals BitLength(x), so the model agrees with BigInteger.bitLength. |
| `BigIntegers.ISqrt` | GenerateKeypair.java:67 | The result r satisfies r² ≤ x < (r+1)²: the floor square root. |
| `BigIntegers.ISqrtUnique` | GenerateKeypair.java:67 | Any t with t² ≤ x < (t+1)² equals ISqrt(x), so the threshold equals BigInteger.sqrt. |
| `BigIntegers.ExtGcd` | GenerateKeypair.java:126 | Returns g = gcd(a, b) together with Bezout coefficients: a·x + b·y = g. |
| `BigIntegers.GcdDivides` | GenerateKeypair.java:126 | gcd(a, b) is positive and divides both a and b. |
| `BigIntegers.ModInverse` | GenerateKeypair.java:32 | Succeeds exactly when an inverse of a modulo m exists. The result r then has 0 ≤ r < m and a·r ≡ 1 (mod m). Otherwise the error is "modulus not positive" for m ≤ 0 and "not invertible" for the rest. |
| `BigIntegers.NoInverse` | GenerateKeypair.java:126 | When gcd(a mod m, m) ≠ 1, no inverse of a modulo m exists. |
| `BigIntegers.InverseUnique` | GenerateKeypair.java:126 | Two inverses of a modulo m in [0, m) are equal, so ModInverse returns what BigInteger.modInverse returns. |
| `BigIntegers.ModPow` | GenerateKeypair.java:122-123 | For m > 0 the result lies in [0, m) and equals b^e mod m, stated against the reference Pow. |
| `BigIntegers.ModPowOne` | GenerateKeypair.java:122-123 | modPow(x, 1, m) = x mod m. |
| `BarrettReduction.ConstantsFor` | GenerateKeypair.java:84-90 | shift = 2·bitLength(m), and factor·m ≤ 2^shift < (factor+1)·m, i.e. factor = ⌊2^shift / m⌋. |
| `BarrettReduction.FactorRange` | GenerateKeypair.java:86-87 | With b = bitLength(m), the factor lies between 2^b and 2^(b+1). |
| `BarrettReduction.Estimate` | GenerateKeypair.java:84-87 | For 0 ≤ x < m², the estimate (x·factor) >> shift is either ⌊x/m⌋ or ⌊x/m⌋ − 1. So x − estimate·m lies in [0, 2m). |
| `MontgomeryReduction.ConstantsFor` | GenerateKeypair.java:102-108 | bitLength = bitLength(m). The radix R = 2^bitLength satisfies m < R ≤ 2m, and rrm = R² mod m with 0 ≤ rrm < m. |
| `MontgomeryReduction.ToMontgomeryDomain` | GenerateKeypair.java:104-105 | For any inverse R⁻¹ of R modulo m, x·rrm·R⁻¹ ≡ x·R (mod m): a Montgomery product with rrm moves x into the Montgomery domain. |
| `ChineseRemainderTheorem.ConstantsFor` | GenerateKeypair.java:120-129 | Succeeds exactly when p ≥ 2, q ≥ 2 and q is invertible modulo p. Then dp = d mod (p−1), dq = d mod (q−1), and qModInvP is the inverse of q modulo p in [0, p). The two Barrett records are those of p and q. The error is "modulus not positive" when p < 2 or q < 2, and "not invertible" otherwise. |
| `ChineseRemainderTheorem.DistinctPrimesInvertible` | GenerateKeypair.java:126 | For distinct primes p and q, q is invertible modulo p, so the CRT derivation succeeds for every exponent d. |
| `Hex.Digits` | GenerateKeypair.java:47 | toString(16) of x ≥ 0 is a non-empty string of lowercase hex digits. It has no leading zero unless x = 0, and its base-16 value is x. |
| `Hex.ToHex` | GenerateKeypair.java:46-48 | The result is "0x" followed only by characters in [0-9a-f]. The first digit is '0' exactly when x = 0, and 0 gives "0x0". The digits parse back to x. |
| `Hex.DigitsOfParse` | GenerateKeypair.java:46-48 | The reverse round trip: every canonical digit string is the rendering of its own value. |
| `GenerateKeypair.PrimeSource.ProbablePrime` | GenerateKeypair.java:63-64 | Fails below 2 bits without consuming a draw. Otherwise it yields the next draw for the requested bit length and advances the draw counter by one. |
| `GenerateKeypair.FermatResistantIff` | GenerateKeypair.java:66-68 | The test abs(p−q) > isqrt(⌊pq/2⌋) holds exactly when (p−q)² > ⌊pq/2⌋. A passing pair has p ≠ q. |
| `GenerateKeypair.Keypair.GeneratePrimeNumbers` | GenerateKeypair.java:52-77 | The counter starts at 0 and rises by one per attempt. Attempt k draws p at bitLen+k and q at bitLen−k bits; every earlier attempt failed the test. On success n = p·q, the pair passes the test, bitLen − attempts ≥ 2, and exactly 2·attempts draws were used. On failure the error is "bit length too small" and attempts = max(1, bitLen−1). |
| `GenerateKeypair.HalveKeyLength` | GenerateKeypair.java:19 | Implements Java's truncating int division by 2: 2b ≤ arg ≤ 2b+1 for arg ≥ 0, and 2b−1 ≤ arg ≤ 2b ≤ 0 for arg < 0. |
| `GenerateKeypair.DeriveKeys` | GenerateKeypair.java:21-37 | Succeeds exactly when e is invertible modulo phi = (p−1)(q−1) and q is invertible modulo p. Then e = 65537, n = p·q, blockSize = bitLength(n)/8, the Montgomery record is that of n, d is the inverse of e modulo phi in [0, phi), and the CRT record is the one for (p, q, d). Any failure is "not invertible". |
| `GenerateKeypair.GeneratedPairDerives` | GenerateKeypair.java:31-34 | For a prime pair that passes the Fermat test, key derivation fails only if e has no inverse modulo phi. |
| `GenerateKeypair.CrtExponentsInvertE` | GenerateKeypair.java:122-123 | If e·d ≡ 1 (mod phi), then e·dp ≡ 1 (mod p−1) and e·dq ≡ 1 (mod q−1). |
| `GenerateKeypair.ExponentFactor` | GenerateKeypair.java:122-123 | If e·d ≡ 1 modulo a·b, then e·(d mod a) ≡ 1 modulo a. |
| `GenerateKeypair.FirstAccepted` | GenerateKeypair.java:52-77 | The attempt the loop stops at: the first k ≥ i with q still at 2 bits or more whose pair passes the Fermat test; every attempt before it fails the test. None means no such attempt passes before q drops below 2 bits. |
| `GenerateKeypair.AcceptedIsFirst` | GenerateKeypair.java:52-77 | A loop that stopped at a passing attempt k, having rejected every attempt before it, stopped at the first accepted attempt. |
| `GenerateKeypair.ExhaustedIsNone` | GenerateKeypair.java:52-77 | A loop that rejected every attempt until q fell below 2 bits means there is no accepted attempt. |
| `GenerateKeypair.ValidAttempt` | GenerateKeypair.java:63-64 | Under a valid random source, attempt k draws a prime of bitLen + k bits and a prime of bitLen − k bits. |
| `GenerateKeypair.Outcome` | GenerateKeypair.java:12-37 | What main yields. With no accepted attempt it is "bit length too small". Otherwise it is the keys derived from the first accepted pair. Its only errors are "bit length too small" and "not invertible". |
| `GenerateKeypair.OutcomeExhausted` | GenerateKeypair.java:12-37 | main fails with "bit length too small" exactly when no attempt with q at 2 bits or more passes the Fermat test. |
| `GenerateKeypair.OutcomeAccepted` | GenerateKeypair.java:12-37 | When an attempt passes, main's keys are DeriveKeys of the first accepted pair. Both values are prime and pass the test, and their bit lengths straddle bitLen and sum to 2·bitLen. main then succeeds exactly when e is invertible modulo (p−1)(q−1). |
| `GenerateKeypair.Run` | GenerateKeypair.java:12-44 | The result equals Outcome of the source's draws from the call's start, so success, failure and the keys are all fixed by the oracle. A requested length below 6 bits fails with "bit length too small". On success the keys are DeriveKeys of the first accepted pair; both values are prime and pass the Fermat test, and their bit lengths sum to twice the halved length, with q below it and p above it. main consumes exactly 2k draws when it stops at accepted attempt k. When no attempt is accepted it consumes 2·bitLen − 3 draws for bitLen ≥ 2, one draw for bitLen = 1 and none below that. |

## Left out

- `SecureRandom` and `BigInteger.probablePrime` (GenerateKeypair.java:10, 63-64) are randomised library code. They are replaced by the oracle `PrimeSource.pick`. `PrimeSource.Valid` states what `probablePrime` promises: a prime of exactly the requested bit length. Primality is assumed of the oracle, not proved.
- Console output and the `String.format` layout of the two key lines (GenerateKeypair.java:15, 28-29, 36-44, 54, 72-75) are fixed text and I/O.
- Argument handling (GenerateKeypair.java:14-17) is left out, including the parse of the argument as a Java int. `Run` takes the parsed integer.
- The records keep integers where the Java objects keep strings. The decimal `Integer.toString` of `shift` and `bitLength` (GenerateKeypair.java:89, 107) is not modelled. The hex strings of `factor`, `rrm`, `dp`, `dq` and `qModInvP` are what `Hex.ToHex` produces from those integers.
- 32-bit int overflow of `shift`, `bitLength * 2`, `bitLen + attempts` and `blockSize` is not modelled. Integers are unbounded, and these values overflow only for keys of more than 2^30 bits.
- BarrettReduction.ConstantsFor: requires m > 0 and does not model a zero or negative modulus. Every call passes p or q after they are checked to be at least 2.
- MontgomeryReduction.ConstantsFor: requires m > 0 in the same way. Its only call passes n = p·q with p, q ≥ 2.
- BigIntegers.ModPow: models non-negative exponents only. The program always uses the exponent 1.
- The library's own algorithms (Newton iteration in `sqrt`, its `modInverse` and `modPow`) are replaced by simple definitions. The uniqueness lemmas show that these return the same values.
- End-to-end RSA or CRT decryption correctness is left out: the program never encrypts or decrypts, and the proof would need Fermat's little theorem.
- `GeneratedPairDerives` states the failure condition as "e has no inverse modulo phi", not in its divisibility form. Because 65537 is prime, main fails with "not invertible" exactly when 65537 divides p − 1 or q − 1. The loop does not exclude such primes, so `e.modInverse(phi)` at GenerateKeypair.java:32 can throw, and the model returns `NotInvertible` then. The divisibility form is not proved, because that would need a proof that 65537 is prime.
