/** Membership credentials and node certificates: signatures over the canonical bytes of their claims. */
module Credentials {
  import opened Wrappers
  import opened ByteStrings
  import opened MachineIntegers
  import opened Identity
  import opened Text
  import opened Merkle
  import opened Canonical

  datatype IdentityError = BadDomain | OtherCommunity | OutOfTime | Unsigned

  datatype MembershipCredential = MembershipCredential(claims: MembershipClaims, signature: Signature<Bytes>)

  datatype NodeCertificate = NodeCertificate(claims: NodeCertificateClaims, signature: Signature<Bytes>)

  /** `mem_` and the hexadecimal hash of a public key. */
  function MemberIdOf(hash: Hash, publicKey: Bytes): Bytes {
    Ascii("mem_") + Hex(hash(publicKey))
  }

  predicate WithinTime(issuedAt: I64, expiresAt: I64, now: I64, skew: I64) {
    WrapI64(now + skew) >= issuedAt && WrapI64(now - skew) <= expiresAt
  }

  function IssueCredential(claims: MembershipClaims, issuer: PublicKey): MembershipCredential {
    MembershipCredential(claims, Signature(issuer, CanonicalBytes(Membership(claims))))
  }

  function VerifyCredential(c: MembershipCredential, communityId: Bytes, now: I64, skew: I64): Result<(), IdentityError> {
    if c.claims.credentialVersion != 1 then Err(BadDomain)
    else if c.claims.communityId != communityId then Err(OtherCommunity)
    else if !WithinTime(c.claims.issuedAt, c.claims.expiresAt, now, skew) then Err(OutOfTime)
    else if !Verifies(PublicKey(c.claims.issuerPublicKey), CanonicalBytes(Membership(c.claims)), c.signature) then Err(Unsigned)
    else Ok(())
  }

  function VerifyTrusted(hash: Hash, c: MembershipCredential, communityId: Bytes, issuer: Bytes, now: I64, skew: I64)
    : Result<(), IdentityError>
  {
    if c.claims.issuerPublicKey != issuer then Err(Unsigned)
    else if c.claims.memberId != MemberIdOf(hash, c.claims.memberPublicKey) then Err(BadDomain)
    else VerifyCredential(c, communityId, now, skew)
  }

  predicate MemberSigned(c: MembershipCredential, message: Bytes, signature: Signature<Bytes>) {
    Verifies(PublicKey(c.claims.memberPublicKey), message, signature)
  }

  function VerifyCertificate(hash: Hash, c: NodeCertificate, owner: Bytes, communityId: Bytes, endpoint: Bytes,
          now: I64, skew: I64)
    : Result<(), IdentityError>
  {
    if || c.claims.certificateVersion != 1
       || c.claims.endpointPublicKey != endpoint
       || Ascii("node") !in c.claims.allowedRoles
       || c.claims.maxStorageBytes == 0
    then Err(BadDomain)
    else if c.claims.communityId != communityId then Err(OtherCommunity)
    else if c.claims.ownerMemberId != MemberIdOf(hash, owner) then Err(BadDomain)
    else if !WithinTime(c.claims.issuedAt, c.claims.expiresAt, now, skew) then Err(OutOfTime)
    else if !Verifies(PublicKey(owner), CanonicalBytes(Certificate(c.claims)), c.signature) then Err(Unsigned)
    else Ok(())
  }

  /**
    Whoever signs what, a credential is trusted exactly when the community's root key made the
    signature, over the claims shown or the same up to the order of roles, and those name that
    key, the member whose key they hold, the version, the community and a time about now.
   */
  lemma {:induction false} CredentialBindsClaims(hash: Hash, k: PublicKey, signed: MembershipClaims, shown: MembershipClaims,
          communityId: Bytes, issuer: Bytes, now: I64, skew: I64)
    requires Short(Membership(signed)) && Short(Membership(shown))
    ensures VerifyTrusted(hash, MembershipCredential(shown, IssueCredential(signed, k).signature), communityId, issuer, now, skew).Ok?
      <==> && k == PublicKey(issuer) && shown.issuerPublicKey == issuer
           && SameRecord(Membership(signed), Membership(shown))
           && shown.memberId == Ascii("mem_") + Hex(hash(shown.memberPublicKey))
           && shown.credentialVersion == 1 && shown.communityId == communityId
           && shown.issuedAt <= WrapI64(now + skew) && WrapI64(now - skew) <= shown.expiresAt
  {
    hide CanonicalBytes, Short, SameRecord;
    CanonicalUnique(Membership(signed), Membership(shown));
  }

  /** Any credential at all is trusted exactly when it is the root key's own signature over claims that pass. */
  lemma {:induction false} TrustedIff(hash: Hash, c: MembershipCredential, communityId: Bytes, issuer: Bytes, now: I64, skew: I64)
    ensures VerifyTrusted(hash, c, communityId, issuer, now, skew).Ok? <==> IssuedBy(hash, c, communityId, issuer, now, skew)
  {
    hide CanonicalBytes;
  }

  /** The issuer's signature over claims that name it, their member, this community and a time about now. */
  predicate IssuedBy(hash: Hash, c: MembershipCredential, communityId: Bytes, issuer: Bytes, now: I64, skew: I64) {
    && c.signature == Signature(PublicKey(issuer), CanonicalBytes(Membership(c.claims)))
    && c.claims.issuerPublicKey == issuer
    && c.claims.memberId == Ascii("mem_") + Hex(hash(c.claims.memberPublicKey))
    && c.claims.credentialVersion == 1 && c.claims.communityId == communityId
    && c.claims.issuedAt <= WrapI64(now + skew) && WrapI64(now - skew) <= c.claims.expiresAt
  }

  lemma {:induction false} FromIssuer(hash: Hash, c: MembershipCredential, communityId: Bytes, issuer: Bytes, now: I64, skew: I64)
    ensures IssuedBy(hash, c, communityId, issuer, now, skew) ==> c.claims.issuerPublicKey == issuer
  {
  }

  /**
    Whoever signs what, a node's certificate holds exactly when its owner's key made the
    signature, over the claims shown or the same up to the order of roles, and those name that
    owner, the endpoint asked of, the node role, some storage, the community and a time about now.
   */
  lemma {:induction false} CertificateBindsClaims(hash: Hash, k: PublicKey, signed: NodeCertificateClaims,
          shown: NodeCertificateClaims, owner: Bytes, communityId: Bytes, endpoint: Bytes, now: I64, skew: I64)
    requires Short(Certificate(signed)) && Short(Certificate(shown))
    ensures VerifyCertificate(hash, NodeCertificate(shown, Signature(k, CanonicalBytes(Certificate(signed)))), owner,
                              communityId, endpoint, now, skew).Ok?
      <==> && k == PublicKey(owner) && SameRecord(Certificate(signed), Certificate(shown))
           && shown.ownerMemberId == Ascii("mem_") + Hex(hash(owner))
           && shown.certificateVersion == 1 && shown.communityId == communityId
           && shown.endpointPublicKey == endpoint && Ascii("node") in shown.allowedRoles && shown.maxStorageBytes > 0
           && shown.issuedAt <= WrapI64(now + skew) && WrapI64(now - skew) <= shown.expiresAt
  {
    hide CanonicalBytes, Short, SameRecord;
    CanonicalUnique(Certificate(signed), Certificate(shown));
  }

  /** Any certificate holds exactly when it is its owner's own signature over claims that pass. */
  lemma {:induction false} CertificateIff(hash: Hash, c: NodeCertificate, owner: Bytes, communityId: Bytes,
          endpoint: Bytes, now: I64, skew: I64)
    ensures VerifyCertificate(hash, c, owner, communityId, endpoint, now, skew).Ok? <==>
            CertifiedBy(hash, c, owner, communityId, endpoint, now, skew)
  {
    hide CanonicalBytes;
  }

  /** The owner's signature over claims that name it, this endpoint, the node role, this community and a time about now. */
  predicate CertifiedBy(hash: Hash, c: NodeCertificate, owner: Bytes, communityId: Bytes, endpoint: Bytes, now: I64, skew: I64) {
    && c.signature == Signature(PublicKey(owner), CanonicalBytes(Certificate(c.claims)))
    && c.claims.ownerMemberId == Ascii("mem_") + Hex(hash(owner))
    && c.claims.certificateVersion == 1 && c.claims.communityId == communityId
    && c.claims.endpointPublicKey == endpoint && Ascii("node") in c.claims.allowedRoles && c.claims.maxStorageBytes > 0
    && c.claims.issuedAt <= WrapI64(now + skew) && WrapI64(now - skew) <= c.claims.expiresAt
  }
}
