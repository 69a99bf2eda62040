/** Ideal signatures: a signature is the record of who signed what. Byte strings that are nobody's
    signature keep only their length, which is all the verifiers look at before checking. */
module Crypto {
  import opened Encoding

  const PUBLIC_KEY_SIZE: nat := 32
  const SIGNATURE_SIZE: nat := 64
  const QUANTUM_PUBLIC_KEY_SIZE: nat := 1952
  const QUANTUM_SIGNATURE_SIZE: nat := 3293

  datatype Scheme = Ed25519 | Dilithium3

  datatype Signature =
    | NoSignature
    | Signed(scheme: Scheme, key: Bytes, msg: Bytes)
    | Junk(length: nat)
  {
    function Length(): nat
    {
      match this
      case NoSignature => 0
      case Signed(Ed25519, _, _) => SIGNATURE_SIZE
      case Signed(Dilithium3, _, _) => QUANTUM_SIGNATURE_SIZE
      case Junk(n) => n
    }
  }

  /** `ed25519.Verify`. */
  predicate EdVerify(key: Bytes, msg: Bytes, sig: Signature) { sig == Signed(Ed25519, key, msg) }

  /** `mode3.PublicKey.UnmarshalBinary` followed by `mode3.Verify`. */
  predicate QuantumVerify(key: Bytes, msg: Bytes, sig: Signature)
  {
    |key| == QUANTUM_PUBLIC_KEY_SIZE && sig == Signed(Dilithium3, key, msg)
  }
}

/** Optional values for the source's nil values and absent map entries. */
module Options {
  datatype Option<+T> = None | Some(value: T)
}
