/** Shared vocabulary of the Keycard signature and certificate model: bytes,
    the errors the decoders raise, a failure-compatible Result, and the
    collaborators (hashing, curve recovery and verification, the zero-prefix
    helper and two tag values) that the decoders call but do not define. */
module KeycardBase {

  /** One unsigned byte (Swift's UInt8). */
  type byte = x: int | 0 <= x < 0x100

  type Bytes = seq<byte>

  /** The failures the core can surface.  UnexpectedTag, EndOfTlv and
      MalformedLength are thrown by the TLV reader, UnrecoverableSignature
      by the recovery-id search.  IndexOutOfRange stands for a Swift runtime
      trap (a slice or subscript past the end of an array), which ends the
      process in the source; here it is an error value like the others. */
  datatype Error =
    | UnexpectedTag(expected: byte, actual: byte)
    | EndOfTlv
    | MalformedLength
    | UnrecoverableSignature
    | IndexOutOfRange

  datatype Option<+T> = None | Some(value: T)

  datatype Result<+T> = Ok(value: T) | Err(error: Error) {
    predicate IsFailure() { Err? }
    function PropagateFailure<U>(): Result<U>
      requires Err?
    {
      Err(error)
    }
    function Extract(): T
      requires Ok?
    {
      value
    }
  }

  /** The code the core calls without defining it, as uninterpreted values:
      - sha256: the SHA-256 digest;
      - recoverPublic(r, s, recId, hash, compressed): secp256k1 public-key
        recovery (section 4.1.6 of SEC 1 v2);
      - verify(signature, hash, publicKey): plain secp256k1 verification;
      - dropZeroPrefix: the helper that strips sign padding from an integer;
      - pubKeyTag, intTag: the tags of the public-key field and of an
        INTEGER inside the ECDSA template, whose values live elsewhere. */
  datatype Env = Env(
    sha256: Bytes -> Bytes,
    recoverPublic: (Bytes, Bytes, byte, Bytes, bool) -> Bytes,
    verify: (Bytes, Bytes, Bytes) -> bool,
    dropZeroPrefix: Bytes -> Bytes,
    pubKeyTag: byte,
    intTag: byte)
}
