/** The enumerations the engine is configured with (Crypto/ExtendedCipherMode.cs and siblings). */
module Enums {

  /** Chaining modes; CTS is declared but every use throws. */
  datatype ExtendedCipherMode = CBC | ECB | OFB | CFB | CTS | CTR

  /** System.Security.Cryptography.PaddingMode. */
  datatype PaddingMode = NoPadding | PKCS7 | Zeros | ANSIX923 | ISO10126

  /** How the CTR counter is combined with the nonce (the IV). */
  datatype NonceCombinationMode = Xor | Concatenate | Add

  datatype TransformDirection = Encrypt | Decrypt

  datatype Endianness = Big | Little
}
