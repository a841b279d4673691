/** The parts of the browser's Web Crypto API that CryptoManager calls,
    taken as given: `crypto.subtle.deriveKey` with PBKDF2, `encrypt` and
    `decrypt` with AES-GCM, and `digest` with SHA-256. Their internals are
    not modelled; a `Provider` is any choice of total functions, and
    `Sound` states the two facts about them that the model relies on. */
module WebCrypto {
  import opened Wrappers
  import opened Bytes

  /** An opaque, non-extractable `CryptoKey`. */
  datatype CryptoKey = CryptoKey(handle: nat)

  /** The primitives. Each fails (`None`) where the browser rejects the
      call with an OperationError or similar; `sha256` never fails. Being
      functions, they are deterministic: the same password, salt and
      parameters always derive the same key. */
  datatype Provider = Provider(
    pbkdf2: (seq<byte>, seq<byte>, nat, nat) -> Option<CryptoKey>,
    aesGcmEncrypt: (CryptoKey, seq<byte>, seq<byte>) -> Option<seq<byte>>,
    aesGcmDecrypt: (CryptoKey, seq<byte>, seq<byte>) -> Option<seq<byte>>,
    sha256: seq<byte> -> seq<byte>)

  /** A SHA-256 digest is 32 octets, and AES-GCM decryption under the key
      and IV of an encryption returns the plaintext. Collision resistance
      and the rejection of forged ciphertexts are probabilistic and are not
      assumed. */
  ghost predicate Sound(p: Provider) {
    (forall m :: |p.sha256(m)| == 32) &&
    (forall k, iv, pt :: p.aesGcmEncrypt(k, iv, pt).Some? ==>
       p.aesGcmDecrypt(k, iv, p.aesGcmEncrypt(k, iv, pt).value) == Some(pt))
  }
}
