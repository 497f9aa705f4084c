/** Authenticated encryption under a key, nonce and associated data; a tag ends what it seals. */
module AuthenticatedCiphers {
  import opened Prelude

  const TAG_LENGTH: nat := 16

  datatype Cipher = Cipher(
    encrypt: (Bytes, Bytes, Bytes, Bytes) -> Bytes,
    decrypt: (Bytes, Bytes, Bytes, Bytes) -> Option<Bytes>)

  /** Decrypting undoes encrypting, and takes nothing else. */
  ghost predicate IsInverse(cipher: Cipher) {
    && (forall key, nonce, aad, plain :: |cipher.encrypt(key, nonce, aad, plain)| == |plain| + TAG_LENGTH)
    && (forall key, nonce, aad, plain ::
          cipher.decrypt(key, nonce, aad, cipher.encrypt(key, nonce, aad, plain)) == Some(plain))
    && (forall key, nonce, aad, sealed, plain ::
          cipher.decrypt(key, nonce, aad, sealed) == Some(plain) ==> cipher.encrypt(key, nonce, aad, plain) == sealed)
  }
}
