/** Results of the operations that can raise java.lang.ArithmeticException. */
module Wrappers {

  /** The three ways the key generator can fail; each is a java.lang.ArithmeticException thrown by BigInteger in GenerateKeypair.java. */
  datatype Error =
    | BitLengthTooSmall     // BigInteger.probablePrime with a bit length below 2
    | ModulusNotPositive    // BigInteger.mod, modPow or modInverse with a modulus <= 0
    | NotInvertible         // BigInteger.modInverse when no inverse exists

  datatype Result<+T> = Ok(value: T) | Err(error: Error)

  datatype Option<+T> = None | Some(value: T)
}
