# Keycard recoverable signatures and certificates, in Dafny

This project models the part of Keycard.swift that decodes recoverable
ECDSA signatures and identity certificates, and proves properties of that
model.

- **RecoverableSignature** (`recoverable_signature.dfy`, module
  `RecoverableSignatures`). A signature is an immutable value with the
  fields `r`, `s`, `recId`, `publicKey` and `compressed`. The datatype
  constructor takes them in the order of the memberwise initializer and
  stores them unchanged. `Decode` is `init(hash:data:)`. It reads the leading
  tag, steps back over it, and dispatches:
  - `0x80` selects the raw form `r[32] | s[32] | recId[1]` (`FromRaw`). The key
    is recovered with the stated id, which is not range-checked.
  - `0xA0` selects the template form (`DecodeTemplate`, specified by
    `Templated`). A public key comes first, then a `0x30` template with two
    integers. The recovery id comes from `CalculateRecId`, which searches
    ids 0..3 and stops at the first match.
  - Any other tag fails with `UnexpectedTag(0xA0, tag)`.
- **Certificate** (`certificate.dfy`, module `Certificates`). `FromTlv` slices
  the 98-byte record `identPub[33] | r[32] | s[32] | recId[1]`. It then
  recovers the CA key, compressed, over `sha256(identPub)`. `VerifyIdentity`
  enters the `0xA0` template and reads the `0x8A` certificate primitive. It
  verifies the remaining bytes as a signature over the caller's hash by the
  identity key. It returns the CA key when that check passes and `None` when
  it fails. A malformed envelope is an error, which is a separate outcome.
- **Collaborators** (`keycard_base.dfy`). The record `Env` is passed to every
  operation. It holds the parts the code calls but does not define, as
  uninterpreted values: SHA-256, secp256k1 public-key recovery (section 4.1.6
  of SEC 1 v2), secp256k1 verification, the zero-prefix stripping helper, and
  the values of the public-key tag and the INTEGER tag.
- **TLV cursor** (`tlv.dfy`, class `Tlv.TinyBerTlv`). This is a minimal
  stand-in for the BER-TLV reader the decoders drive. It holds a buffer and a
  position. Each read is specified by a pure function (`TagAt`, `HeaderAt`,
  `PrimitiveAt`) that gives the value read and the new position.

Each imperative operation is a method proved equal to a pure specification
function: `CalculateRecId` and `RecId`, `DecodeTemplate` and `Templated`,
`Decode` and `Decoded`, `VerifyIdentity` and `IdentityCheck`. The lemmas then
state the source's promises about those functions.

## Model

| member | source | states |
|---|---|---|
| `RecoverableSignatures.CalculateRecId` | Sources/Keycard/RecoverableSignature.swift:54-70 | Succeeds exactly when some id in 0..3 recovers `pubkey`. It then returns the lowest such id, which is at most 3, so the 0xFF sentinel is never returned. Otherwise it fails with UnrecoverableSignature. The result equals `RecId`. |
| `RecoverableSignatures.RecIdFromIsLowest` | Sources/Keycard/RecoverableSignature.swift:57-63 | A search that starts at id `from` returns the first id in `from`..3 that recovers the key, or UnrecoverableSignature exactly when none does. |
| `RecoverableSignatures.RecIdIsLowest` | Sources/Keycard/RecoverableSignature.swift:55-69 | `RecId` yields an id that is at most 3 and recovers the key, and no lower id recovers it. It fails with UnrecoverableSignature if and only if none of ids 0..3 recovers the key. |
| `RecoverableSignatures.FromRaw` | Sources/Keycard/RecoverableSignature.swift:46-52 | `r` and `s` are 32 bytes each. `r ‖ s ‖ [recId]` is exactly the first 65 input bytes. `compressed` is false. The key is the one recovered with the stated id, uncompressed. |
| `RecoverableSignatures.RawRoundTrip` | Sources/Keycard/RecoverableSignature.swift:46-52 | A raw-form signature whose key is the one its id recovers decodes from its own 65 raw bytes back to itself. |
| `RecoverableSignatures.TemplatedRecovers` | Sources/Keycard/RecoverableSignature.swift:36-44 | A successful template decode is uncompressed. Its id is at most 3, recovers the stated key, and no lower id does. |
| `RecoverableSignatures.DecodeTemplate` | Sources/Keycard/RecoverableSignature.swift:36-44 | Moving the cursor through the `0xA0` template, the public key, the `0x30` template and the two integers yields the result of `Templated` at the starting position. On success the cursor ends after the `s` integer. |
| `RecoverableSignatures.Decode` | Sources/Keycard/RecoverableSignature.swift:22-34 | Equals `Decoded`. The tag is peeked and then un-read, so the raw and template paths both read from position 0 and re-read the tag. |
| `RecoverableSignatures.DecodedIsConsistent` | Sources/Keycard/RecoverableSignature.swift:22-52 | Every decoded signature is uncompressed. Its key equals the key recovered from its `r`, `s` and `recId` over the hash. For the `0xA0` tag, `recId` is also the lowest recovering id. |
| `RecoverableSignatures.DecodedRejects` | Sources/Keycard/RecoverableSignature.swift:24-33 | Empty input fails at the tag read. A leading tag other than `0x80` or `0xA0` fails with `UnexpectedTag(expected: 0xA0, actual: tag)`. |
| `RecoverableSignatures.DecodeRawWire` | Sources/Keycard/RecoverableSignature.swift:27-28 | A `0x80` primitive holding `r ‖ s ‖ recId` decodes to exactly that `r`, `s` and `recId`, uncompressed, with the key that id recovers. |
| `RecoverableSignatures.DecodeTemplateWire` | Sources/Keycard/RecoverableSignature.swift:29-30 | A `0xA0` template with the long-form outer header `0xA0 0x81 n`, which a 65-byte key and two integers need, decodes to the stated key, the stripped integers, `compressed = false` and the lowest recovering id. If no id recovers the key, it fails with UnrecoverableSignature. |
| `RecoverableSignatures.RawAndTemplateAgree` | Sources/Keycard/RecoverableSignature.swift:22-52 | A raw encoding and a template encoding of the same `r`, `s` and key decode to the same signature when the raw id is the lowest recovering id. The template encoding uses the long-form outer header `0xA0 0x81 n`. |
| `Certificates.FromTlv` | Sources/Keycard/Certificate.swift:9-20 | `identPub` is 33 bytes and `r` and `s` are 32 bytes each. The certificate's record is exactly the first 98 input bytes. `caSignature` is compressed. Its key is the one recovered from `r`, `s` and `recId` over `sha256(identPub)`. |
| `Certificates.RecordRoundTrip` | Sources/Keycard/Certificate.swift:9-20 | A record assembled from an identity key and a CA signature over that key's hash decodes to that certificate, including exactly that CA key. |
| `Certificates.FromTlvDependsOnRecord` | Sources/Keycard/Certificate.swift:9-20 | Inputs that agree on their first 98 bytes decode to equal certificates, so equal input bytes give equal certificates. |
| `Certificates.VerifyIdentity` | Sources/Keycard/Certificate.swift:22-34 | Equals `IdentityCheck`. The cursor enters the `0xA0` template, reads the `0x8A` primitive, decodes the certificate and verifies the unread bytes. |
| `Certificates.IdentityCheckOutcome` | Sources/Keycard/Certificate.swift:25-33 | When the check completes, the answer is `None` exactly when the unread bytes fail to verify under the identity key. Otherwise it is the CA key of the certificate decoded from the `0x8A` payload. |
| `Certificates.IdentityCheckRejectsTags` | Sources/Keycard/Certificate.swift:24-25 | A missing outer `0xA0` tag is an error and never `None`. So is a tag other than `0x8A` right after the outer header, whatever length form that header uses. |
| `Certificates.IdentityCheckOnWire` | Sources/Keycard/Certificate.swift:22-34 | For an envelope that holds a well-formed certificate, the check returns the CA key if and only if the identity signature verifies over the hash, and `None` otherwise. |
| `Tlv.TinyBerTlv.ReadTag` | Sources/Keycard/RecoverableSignature.swift:24 | Returns the byte at the cursor and advances by one. At the end of the buffer it fails with EndOfTlv and does not move. |
| `Tlv.TinyBerTlv.UnreadLastTag` | Sources/Keycard/RecoverableSignature.swift:25 | Moves the cursor back by one byte, the width of a tag. |
| `Tlv.TinyBerTlv.EnterConstructed` | Sources/Keycard/RecoverableSignature.swift:37 | Checks the tag, reads the length and leaves the cursor on the first inner byte. A failure leaves the cursor where it was. |
| `Tlv.TinyBerTlv.ReadPrimitive` | Sources/Keycard/RecoverableSignature.swift:38 | Checks the tag and returns the value bytes the length announces, moving past them. A failure leaves the cursor where it was. |
| `Tlv.TinyBerTlv.PeekUnread` | Sources/Keycard/Certificate.swift:27 | Returns every byte after the cursor without moving it. |

## Left out

- Curve and hash primitives: `sha256`, `secp256k1RecoverPublic` and `secp256k1Verify` are uninterpreted fields of `Env`. So nothing is proved that needs curve arithmetic: that signing and then recovering gives the signer's key, that a tampered signature fails to verify, or that two ids never recover the same key.
- TLV reader: TinyBERTLV is not part of this model. `Tlv.TinyBerTlv` assumes the following:
  - tags are one byte;
  - a length is a single byte below 0x80, or one of the long forms `0x81 n` and `0x82 n n`; any other long form fails with MalformedLength;
  - a primitive whose declared length runs past the end of the buffer fails with EndOfTlv, rather than trapping on an out-of-range slice;
  - a failed read leaves the cursor where it was;
  - `unreadLastTag` steps back one byte, and at position 0 the cursor stays at 0;
  - `enterConstructed` does not limit later reads to the constructed value's length;
  - `peekUnread` returns the rest of the whole buffer.
- Zero-prefix stripping: `Util.dropZeroPrefix` is not part of this model. It is the uninterpreted `Env.dropZeroPrefix`, so its exact stripping rule is not stated.
- Tag values: `AppInfoTag.pubKey` and `TLVTag.int` are not part of this model. They are the symbolic `Env.pubKeyTag` and `Env.intTag`.
- Error types: `CardError` and `TLVError` are not part of this model. Their cases are folded into one `Error` datatype.
- Runtime traps: a raw signature shorter than 65 bytes, or a certificate payload shorter than 98 bytes, traps at runtime in Swift (index out of range) and ends the process, so no caller sees it. The model turns it into the error value `Err(IndexOutOfRange)`, which differs from the thrown errors only by its constructor. `FromRaw` and `FromTlv` themselves require the length, as their Swift counterparts do.
- Raw-form recovery id: the raw form does not restrict the id to 0..3, because the code makes no such check.
- CA-key pinning: no CA-key pinning or identity-signature shape check is modelled, because the code makes none.
