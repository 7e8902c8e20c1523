/** Certificates: a 98-byte record binding an identity key to a CA
    signature over its hash, and the trust check that authenticates a hash
    with the identity key and reports the recovered CA key. */
module Certificates {
  import opened KeycardBase
  import opened Tlv
  import opened RecoverableSignatures

  /** The tag of CertificateTag. */
  const CERTIFICATE: byte := 0x8A

  datatype Certificate = Certificate(identPub: Bytes, caSignature: RecoverableSignature)

  /** The record `identPub[33] | r[32] | s[32] | recId[1]` of a certificate. */
  function Record(cert: Certificate): Bytes
  {
    cert.identPub + cert.caSignature.r + cert.caSignature.s + [cert.caSignature.recId]
  }

  /** fromTLV: slices the first 98 bytes and recovers the CA key, compressed,
      over the SHA-256 of the identity key.  Nothing is validated. */
  function FromTlv(env: Env, certData: Bytes): (cert: Certificate)
    requires |certData| >= 98
    ensures |cert.identPub| == 33 && |cert.caSignature.r| == 32 && |cert.caSignature.s| == 32
    ensures Record(cert) == certData[..98]
    ensures cert.caSignature.compressed
    ensures cert.caSignature.publicKey
         == env.recoverPublic(cert.caSignature.r, cert.caSignature.s, cert.caSignature.recId,
                              env.sha256(cert.identPub), true)
  {
    var pub := certData[0..33];
    var r := certData[33..65];
    var s := certData[65..97];
    var recId := certData[97];
    assert pub + r + s + [recId] == certData[..98];
    var hash := env.sha256(pub);
    var caPub := env.recoverPublic(r, s, recId, hash, true);
    Certificate(pub, RecoverableSignature(r, s, recId, caPub, true))
  }

  /** A certificate as fromTLV produces it: field widths, compressed flag and
      the CA key recovered over the identity key's hash. */
  predicate WellFormed(env: Env, cert: Certificate)
  {
    && |cert.identPub| == 33 && |cert.caSignature.r| == 32 && |cert.caSignature.s| == 32
    && cert.caSignature.compressed
    && cert.caSignature.publicKey
       == env.recoverPublic(cert.caSignature.r, cert.caSignature.s, cert.caSignature.recId,
                            env.sha256(cert.identPub), true)
  }

  /** Decoding the record of a well-formed certificate gives it back; in
      particular a record built from a key and a CA signature over its hash
      decodes to exactly that CA key. */
  lemma RecordRoundTrip(env: Env, cert: Certificate)
    requires WellFormed(env, cert)
    ensures |Record(cert)| == 98 && FromTlv(env, Record(cert)) == cert
  {
    var rec := Record(cert);
    assert rec[0..33] == cert.identPub;
    assert rec[33..65] == cert.caSignature.r;
    assert rec[65..97] == cert.caSignature.s;
  }

  /** fromTLV depends on the first 98 bytes only: inputs that agree there
      give equal certificates. */
  lemma FromTlvDependsOnRecord(env: Env, d1: Bytes, d2: Bytes)
    requires |d1| >= 98 && |d2| >= 98
    requires d1[..98] == d2[..98]
    ensures FromTlv(env, d1) == FromTlv(env, d2)
  {
    assert d1[0..33] == d1[..98][0..33] == d2[..98][0..33] == d2[0..33];
    assert d1[33..65] == d1[..98][33..65] == d2[..98][33..65] == d2[33..65];
    assert d1[65..97] == d1[..98][65..97] == d2[..98][65..97] == d2[65..97];
    assert d1[97] == d1[..98][97] == d2[97];
  }

  /** The two pieces of the identity envelope: the payload of the 0x8A
      primitive inside the 0xA0 template, and every byte after it. */
  function Envelope(tlvData: Bytes): Result<(Bytes, Bytes)>
  {
    var outer :- HeaderAt(tlvData, 0, SIGNATURE_TEMPLATE);
    var certData :- PrimitiveAt(tlvData, outer.1, CERTIFICATE);
    Ok((certData.0, tlvData[certData.1..]))
  }

  /** What verifyIdentity yields: a malformed envelope is an error, an
      identity signature that does not verify is None, otherwise the CA key
      recovered from the certificate. */
  function IdentityCheck(env: Env, hash: Bytes, tlvData: Bytes): Result<Option<Bytes>>
  {
    var parts :- Envelope(tlvData);
    if |parts.0| < 98 then Err(IndexOutOfRange)
    else
      var cert := FromTlv(env, parts.0);
      if !env.verify(parts.1, hash, cert.identPub) then Ok(None)
      else Ok(Some(cert.caSignature.publicKey))
  }

  /** verifyIdentity: enters the template, reads the certificate, takes the
      rest as the identity signature and checks it. */
  method VerifyIdentity(env: Env, hash: Bytes, tlvData: Bytes) returns (res: Result<Option<Bytes>>)
    ensures res == IdentityCheck(env, hash, tlvData)
  {
    var tlv := new TinyBerTlv(tlvData);
    var outer := tlv.EnterConstructed(SIGNATURE_TEMPLATE);
    if outer.Err? {
      return Err(outer.error);
    }
    var certData := tlv.ReadPrimitive(CERTIFICATE);
    if certData.Err? {
      return Err(certData.error);
    }
    if |certData.value| < 98 {
      return Err(IndexOutOfRange);
    }
    var cert := FromTlv(env, certData.value);
    var signature := tlv.PeekUnread();
    if !env.verify(signature, hash, cert.identPub) {
      return Ok(None);
    }
    res := Ok(Some(cert.caSignature.publicKey));
  }

  /** Whenever the check completes, it is None exactly when the identity
      signature fails to verify under the certificate's identity key, and
      otherwise the CA key of the certificate read from the 0x8A payload. */
  lemma IdentityCheckOutcome(env: Env, hash: Bytes, tlvData: Bytes)
    requires IdentityCheck(env, hash, tlvData).Ok?
    ensures Envelope(tlvData).Ok? && |Envelope(tlvData).value.0| >= 98
    ensures var (certData, signature) := Envelope(tlvData).value;
      var cert := FromTlv(env, certData);
      && (IdentityCheck(env, hash, tlvData).value.None? <==> !env.verify(signature, hash, cert.identPub))
      && (IdentityCheck(env, hash, tlvData).value.Some? ==>
            IdentityCheck(env, hash, tlvData).value.value == cert.caSignature.publicKey)
  {
  }

  /** A missing outer template tag, or a tag other than the certificate tag
      right after the outer header (whatever its length form), is an error,
      never the "no trust" answer. */
  lemma IdentityCheckRejectsTags(env: Env, hash: Bytes, tlvData: Bytes)
    ensures |tlvData| == 0 ==> IdentityCheck(env, hash, tlvData) == Err(EndOfTlv)
    ensures |tlvData| > 0 && tlvData[0] != SIGNATURE_TEMPLATE ==>
      IdentityCheck(env, hash, tlvData) == Err(UnexpectedTag(SIGNATURE_TEMPLATE, tlvData[0]))
    ensures var outer := HeaderAt(tlvData, 0, SIGNATURE_TEMPLATE);
      outer.Ok? && outer.value.1 < |tlvData| && tlvData[outer.value.1] != CERTIFICATE ==>
        IdentityCheck(env, hash, tlvData) == Err(UnexpectedTag(CERTIFICATE, tlvData[outer.value.1]))
  {
  }

  /** The identity envelope as a card sends it: a 0xA0 template with a
      one-byte long-form length, the 98-byte record in a 0x8A primitive,
      then the identity signature. */
  function IdentityWire(cert: Certificate, outerLen: byte, signature: Bytes): Bytes
    requires |Record(cert)| == 98
  {
    [SIGNATURE_TEMPLATE, 0x81, outerLen] + ShortTlv(CERTIFICATE, Record(cert)) + signature
  }

  /** On a well-formed envelope the check returns the certificate's CA key
      if and only if the identity signature verifies over `hash` under the
      identity key, and None otherwise. */
  lemma IdentityCheckOnWire(env: Env, hash: Bytes, cert: Certificate, outerLen: byte, signature: Bytes)
    requires WellFormed(env, cert)
    ensures |Record(cert)| == 98
    ensures IdentityCheck(env, hash, IdentityWire(cert, outerLen, signature))
         == if env.verify(signature, hash, cert.identPub)
            then Ok(Some(cert.caSignature.publicKey))
            else Ok(None)
  {
    RecordRoundTrip(env, cert);
    var head := [SIGNATURE_TEMPLATE, 0x81, outerLen];
    var data := IdentityWire(cert, outerLen, signature);
    assert data[0] == SIGNATURE_TEMPLATE && data[1] == 0x81 && data[2] == outerLen;
    assert HeaderAt(data, 0, SIGNATURE_TEMPLATE) == Ok((outerLen as nat, 3));
    PrimitiveAtShort(head, CERTIFICATE, Record(cert), signature);
    assert data[3 + 2 + 98..] == signature;
  }
}
