/** Keys, member identifiers and signatures, idealised. */
module Identity {
  import opened ByteStrings


  datatype PublicKey = PublicKey(bytes: Bytes)

  /** `mem_` and the hash of a public key. */
  datatype MemberId = MemberId(key: PublicKey)

  /** A signature, which names the key that made it and what it was made over. */
  datatype Signature<T> = Signature(signer: PublicKey, message: T)

  predicate Verifies<T(==)>(key: PublicKey, message: T, signature: Signature<T>) {
    signature == Signature(key, message)
  }

  /** An identifier formed by hashing a record's canonical identity bytes. */
  datatype HashedId<T> = HashedId(body: T)
}
