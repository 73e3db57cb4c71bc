/**
  The three tree digests. A digest is modelled by what was hashed, so two digests
  are equal exactly when their inputs are: this is collision resistance without an
  axiom. `Opaque` stands for any other 32-byte string somebody may put in a proof.
 */
module Hashing {
  import opened Bytes

  datatype Hash =
    | LeafHash(index: u32, nonce: bytes, tag: bytes, ct: bytes)
    | NodeHash(left: Hash, right: Hash)
    | RootHash(leafCount: u32, apex: Hash)
    | Opaque(raw: bytes)

  datatype CryptoError = BadLength | IndexOutOfRange | TreeMismatch | Unsupported | BadSignature
}
