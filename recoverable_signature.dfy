/** Recoverable ECDSA signatures: the raw 65-byte form, the TLV template
    form whose recovery id is found by search, and the decoder that peeks
    the leading tag to choose between them. */
module RecoverableSignatures {
  import opened KeycardBase
  import opened Tlv

  /** The tags of ECDSASignatureTag. */
  const SIGNATURE_TEMPLATE: byte := 0xA0
  const RAW_SIGNATURE: byte := 0x80
  const ECDSA_TEMPLATE: byte := 0x30

  /** An immutable signature; the constructor is the memberwise initializer
      and stores its five arguments unchanged. */
  datatype RecoverableSignature = RecoverableSignature(
    r: Bytes, s: Bytes, recId: byte, publicKey: Bytes, compressed: bool)

  /** Recovery with id `id` yields `pubkey`. */
  predicate Recovers(env: Env, hash: Bytes, pubkey: Bytes, r: Bytes, s: Bytes, compressed: bool, id: byte)
  {
    env.recoverPublic(r, s, id, hash, compressed) == pubkey
  }

  /** The first id among `from`..3 that recovers `pubkey`. */
  function RecIdFrom(env: Env, hash: Bytes, pubkey: Bytes, r: Bytes, s: Bytes, compressed: bool, from: nat): Result<byte>
    requires from <= 4
    decreases 4 - from
  {
    if from == 4 then Err(UnrecoverableSignature)
    else if Recovers(env, hash, pubkey, r, s, compressed, from) then Ok(from)
    else RecIdFrom(env, hash, pubkey, r, s, compressed, from + 1)
  }

  /** The recovery id the template form derives: the lowest of 0..3 that
      recovers `pubkey`, or UnrecoverableSignature. */
  function RecId(env: Env, hash: Bytes, pubkey: Bytes, r: Bytes, s: Bytes, compressed: bool): Result<byte>
  {
    RecIdFrom(env, hash, pubkey, r, s, compressed, 0)
  }

  lemma {:induction false} RecIdFromIsLowest(env: Env, hash: Bytes, pubkey: Bytes, r: Bytes, s: Bytes, compressed: bool, from: nat)
    requires from <= 4
    ensures var found := RecIdFrom(env, hash, pubkey, r, s, compressed, from);
      && (found.Ok? ==> from <= found.value <= 3 && Recovers(env, hash, pubkey, r, s, compressed, found.value))
      && (found.Ok? ==> forall j: byte :: from <= j < found.value ==> !Recovers(env, hash, pubkey, r, s, compressed, j))
      && (found.Err? <==> forall j: byte :: from <= j <= 3 ==> !Recovers(env, hash, pubkey, r, s, compressed, j))
      && (found.Err? ==> found.error == UnrecoverableSignature)
    decreases 4 - from
  {
    if from < 4 && !Recovers(env, hash, pubkey, r, s, compressed, from) {
      RecIdFromIsLowest(env, hash, pubkey, r, s, compressed, from + 1);
    }
  }

  /** RecId succeeds exactly when some id 0..3 recovers `pubkey`, and then
      yields the lowest such id. */
  lemma RecIdIsLowest(env: Env, hash: Bytes, pubkey: Bytes, r: Bytes, s: Bytes, compressed: bool)
    ensures var found := RecId(env, hash, pubkey, r, s, compressed);
      && (found.Ok? ==> found.value <= 3 && Recovers(env, hash, pubkey, r, s, compressed, found.value))
      && (found.Ok? ==> forall j: byte :: j < found.value ==> !Recovers(env, hash, pubkey, r, s, compressed, j))
      && (found.Err? <==> forall j: byte :: j <= 3 ==> !Recovers(env, hash, pubkey, r, s, compressed, j))
      && (found.Err? ==> found.error == UnrecoverableSignature)
  {
    RecIdFromIsLowest(env, hash, pubkey, r, s, compressed, 0);
  }

  /** The search of calculateRecId: ids 0..3 in order, stopping at the first
      whose recovered key equals `pubkey`; 0xFF marks "not found". */
  method CalculateRecId(env: Env, hash: Bytes, pubkey: Bytes, r: Bytes, s: Bytes, compressed: bool) returns (res: Result<byte>)
    ensures res.Ok? ==> res.value <= 3 && Recovers(env, hash, pubkey, r, s, compressed, res.value)
    ensures res.Ok? ==> forall j: byte :: j < res.value ==> !Recovers(env, hash, pubkey, r, s, compressed, j)
    ensures res.Err? <==> forall j: byte :: j <= 3 ==> !Recovers(env, hash, pubkey, r, s, compressed, j)
    ensures res.Err? ==> res.error == UnrecoverableSignature
    ensures res == RecId(env, hash, pubkey, r, s, compressed)
  {
    var foundId: byte := 0xFF;
    for i := 0 to 4
      invariant foundId == 0xFF
      invariant forall j: byte :: j < i ==> !Recovers(env, hash, pubkey, r, s, compressed, j)
    {
      var pub := env.recoverPublic(r, s, i, hash, compressed);
      if pub == pubkey {
        foundId := i;
        break;
      }
    }
    if foundId == 0xFF {
      res := Err(UnrecoverableSignature);
    } else {
      res := Ok(foundId);
    }
    RecIdIsLowest(env, hash, pubkey, r, s, compressed);
  }

  /** The raw form `r[32] | s[32] | recId[1]`: the key is recovered with the
      given id, which is not range-checked, and is not compared with
      anything. */
  function FromRaw(env: Env, hash: Bytes, signature: Bytes): (sig: RecoverableSignature)
    requires |signature| >= 65
    ensures |sig.r| == 32 && |sig.s| == 32 && !sig.compressed
    ensures sig.r + sig.s + [sig.recId] == signature[..65]
    ensures sig.publicKey == env.recoverPublic(sig.r, sig.s, sig.recId, hash, false)
  {
    var r := signature[0..32];
    var s := signature[32..64];
    assert r + s + [signature[64]] == signature[..65];
    RecoverableSignature(r, s, signature[64], env.recoverPublic(r, s, signature[64], hash, false), false)
  }

  /** The 65 raw bytes of a signature. */
  function RawBytes(sig: RecoverableSignature): Bytes
  {
    sig.r + sig.s + [sig.recId]
  }

  /** A raw-form signature whose key is the one its id recovers survives
      the trip through its raw bytes unchanged. */
  lemma RawRoundTrip(env: Env, hash: Bytes, sig: RecoverableSignature)
    requires |sig.r| == 32 && |sig.s| == 32 && !sig.compressed
    requires sig.publicKey == env.recoverPublic(sig.r, sig.s, sig.recId, hash, false)
    ensures |RawBytes(sig)| == 65 && FromRaw(env, hash, RawBytes(sig)) == sig
  {
    var raw := RawBytes(sig);
    assert raw[0..32] == sig.r && raw[32..64] == sig.s && raw[64] == sig.recId;
  }

  /** The template form read from `p`: a 0xA0 template holding the public
      key, then a 0x30 template holding the integers r and s; the recovery
      id is the lowest one that recovers the stated key. */
  function Templated(env: Env, hash: Bytes, buf: Bytes, p: nat): Result<(RecoverableSignature, nat)>
  {
    var outer :- HeaderAt(buf, p, SIGNATURE_TEMPLATE);
    var pub :- PrimitiveAt(buf, outer.1, env.pubKeyTag);
    var inner :- HeaderAt(buf, pub.1, ECDSA_TEMPLATE);
    var rInt :- PrimitiveAt(buf, inner.1, env.intTag);
    var sInt :- PrimitiveAt(buf, rInt.1, env.intTag);
    var r := env.dropZeroPrefix(rInt.0);
    var s := env.dropZeroPrefix(sInt.0);
    var recId :- RecId(env, hash, pub.0, r, s, false);
    Ok((RecoverableSignature(r, s, recId, pub.0, false), sInt.1))
  }

  /** A template-form signature is uncompressed, its id is the lowest in
      0..3 that recovers its key, and that id does recover its key. */
  lemma TemplatedRecovers(env: Env, hash: Bytes, buf: Bytes, p: nat)
    requires Templated(env, hash, buf, p).Ok?
    ensures var sig := Templated(env, hash, buf, p).value.0;
      && !sig.compressed
      && sig.recId <= 3
      && sig.publicKey == env.recoverPublic(sig.r, sig.s, sig.recId, hash, false)
      && forall j: byte :: j < sig.recId ==> !Recovers(env, hash, sig.publicKey, sig.r, sig.s, false, j)
  {
    var outer := HeaderAt(buf, p, SIGNATURE_TEMPLATE).value;
    var pub := PrimitiveAt(buf, outer.1, env.pubKeyTag).value;
    var inner := HeaderAt(buf, pub.1, ECDSA_TEMPLATE).value;
    var rInt := PrimitiveAt(buf, inner.1, env.intTag).value;
    var sInt := PrimitiveAt(buf, rInt.1, env.intTag).value;
    RecIdIsLowest(env, hash, pub.0, env.dropZeroPrefix(rInt.0), env.dropZeroPrefix(sInt.0), false);
  }

  /** The private template initializer: drives the cursor through the
      template and derives the recovery id. */
  method DecodeTemplate(env: Env, hash: Bytes, tlv: TinyBerTlv) returns (res: Result<RecoverableSignature>)
    requires tlv.Valid()
    modifies tlv
    ensures tlv.Valid()
    ensures res == Drop(Templated(env, hash, tlv.buffer, old(tlv.pos)))
    ensures res.Ok? ==> tlv.pos == Templated(env, hash, tlv.buffer, old(tlv.pos)).value.1
  {
    var outer := tlv.EnterConstructed(SIGNATURE_TEMPLATE);
    if outer.Err? {
      return Err(outer.error);
    }
    var publicKey := tlv.ReadPrimitive(env.pubKeyTag);
    if publicKey.Err? {
      return Err(publicKey.error);
    }
    var inner := tlv.EnterConstructed(ECDSA_TEMPLATE);
    if inner.Err? {
      return Err(inner.error);
    }
    var rInt := tlv.ReadPrimitive(env.intTag);
    if rInt.Err? {
      return Err(rInt.error);
    }
    var r := env.dropZeroPrefix(rInt.value);
    var sInt := tlv.ReadPrimitive(env.intTag);
    if sInt.Err? {
      return Err(sInt.error);
    }
    var s := env.dropZeroPrefix(sInt.value);
    var compressed := false;
    var recId := CalculateRecId(env, hash, publicKey.value, r, s, compressed);
    if recId.Err? {
      return Err(recId.error);
    }
    res := Ok(RecoverableSignature(r, s, recId.value, publicKey.value, compressed));
  }

  /** What init(hash:data:) yields for `data`: the leading tag chooses the
      raw form (0x80) or the template form (0xA0), and either form reads
      from the start of `data`, the tag included. */
  function Decoded(env: Env, hash: Bytes, data: Bytes): Result<RecoverableSignature>
  {
    var tag :- TagAt(data, 0);
    if tag.0 == RAW_SIGNATURE then
      var raw :- PrimitiveAt(data, 0, tag.0);
      if |raw.0| < 65 then Err(IndexOutOfRange) else Ok(FromRaw(env, hash, raw.0))
    else if tag.0 == SIGNATURE_TEMPLATE then
      Drop(Templated(env, hash, data, 0))
    else
      Err(UnexpectedTag(SIGNATURE_TEMPLATE, tag.0))
  }

  /** init(hash:data:): reads the tag, steps back over it, and dispatches. */
  method Decode(env: Env, hash: Bytes, data: Bytes) returns (res: Result<RecoverableSignature>)
    ensures res == Decoded(env, hash, data)
  {
    var tlv := new TinyBerTlv(data);
    var tag := tlv.ReadTag();
    if tag.Err? {
      return Err(tag.error);
    }
    tlv.UnreadLastTag();
    if tag.value == RAW_SIGNATURE {
      var raw := tlv.ReadPrimitive(tag.value);
      if raw.Err? {
        return Err(raw.error);
      }
      if |raw.value| < 65 {
        return Err(IndexOutOfRange);
      }
      res := Ok(FromRaw(env, hash, raw.value));
    } else if tag.value == SIGNATURE_TEMPLATE {
      res := DecodeTemplate(env, hash, tlv);
    } else {
      res := Err(UnexpectedTag(SIGNATURE_TEMPLATE, tag.value));
    }
  }

  /** Every decoded signature is uncompressed and its key is the one its
      recovery id recovers over `hash`; in the template form that id is
      also the lowest such id in 0..3. */
  lemma DecodedIsConsistent(env: Env, hash: Bytes, data: Bytes)
    requires Decoded(env, hash, data).Ok?
    ensures var sig := Decoded(env, hash, data).value;
      && !sig.compressed
      && |data| > 0
      && sig.publicKey == env.recoverPublic(sig.r, sig.s, sig.recId, hash, sig.compressed)
      && (data[0] == SIGNATURE_TEMPLATE ==>
            sig.recId <= 3 && forall j: byte :: j < sig.recId ==> !Recovers(env, hash, sig.publicKey, sig.r, sig.s, false, j))
  {
    if data[0] == SIGNATURE_TEMPLATE {
      TemplatedRecovers(env, hash, data, 0);
    }
  }

  /** An empty input fails at the tag; a leading tag other than 0x80 and
      0xA0 is reported against the expected template tag. */
  lemma DecodedRejects(env: Env, hash: Bytes, data: Bytes)
    ensures |data| == 0 ==> Decoded(env, hash, data) == Err(EndOfTlv)
    ensures |data| > 0 && data[0] != RAW_SIGNATURE && data[0] != SIGNATURE_TEMPLATE ==>
      Decoded(env, hash, data) == Err(UnexpectedTag(SIGNATURE_TEMPLATE, data[0]))
  {
  }

  /** The raw wire form, a 0x80 primitive of 65 bytes. */
  function RawWire(r: Bytes, s: Bytes, recId: byte): Bytes
    requires |r| == 32 && |s| == 32
  {
    ShortTlv(RAW_SIGNATURE, r + s + [recId])
  }

  /** Decoding the raw wire form gives back its r, s and id, with the key
      that id recovers. */
  lemma DecodeRawWire(env: Env, hash: Bytes, r: Bytes, s: Bytes, recId: byte)
    requires |r| == 32 && |s| == 32
    ensures Decoded(env, hash, RawWire(r, s, recId))
         == Ok(RecoverableSignature(r, s, recId, env.recoverPublic(r, s, recId, hash, false), false))
  {
    PrimitiveAtShort([], RAW_SIGNATURE, r + s + [recId], []);
    assert [] + ShortTlv(RAW_SIGNATURE, r + s + [recId]) + [] == RawWire(r, s, recId);
    RawRoundTrip(env, hash, RecoverableSignature(r, s, recId, env.recoverPublic(r, s, recId, hash, false), false));
  }

  /** The template wire form: 0xA0 holding the key and a 0x30 template with
      two integers.  A 65-byte key and two integers do not fit a one-byte
      length, so the outer header is the long form `0xA0 0x81 outerLen`;
      `outerLen` and `innerLen` are the declared lengths. */
  function TemplateWire(env: Env, publicKey: Bytes, rInt: Bytes, sInt: Bytes, outerLen: byte, innerLen: byte): Bytes
    requires |publicKey| < 0x80 && |rInt| < 0x80 && |sInt| < 0x80
    requires innerLen < 0x80
  {
    [SIGNATURE_TEMPLATE, 0x81, outerLen] + ShortTlv(env.pubKeyTag, publicKey)
      + [ECDSA_TEMPLATE, innerLen] + ShortTlv(env.intTag, rInt) + ShortTlv(env.intTag, sInt)
  }

  /** Decoding the template wire form reads the stated key and the stripped
      integers, and derives the lowest recovering id or fails. */
  lemma DecodeTemplateWire(env: Env, hash: Bytes, publicKey: Bytes, rInt: Bytes, sInt: Bytes, outerLen: byte, innerLen: byte)
    requires |publicKey| < 0x80 && |rInt| < 0x80 && |sInt| < 0x80
    requires innerLen < 0x80
    ensures var r := env.dropZeroPrefix(rInt);
      var s := env.dropZeroPrefix(sInt);
      Decoded(env, hash, TemplateWire(env, publicKey, rInt, sInt, outerLen, innerLen))
        == match RecId(env, hash, publicKey, r, s, false)
           case Ok(id) => Ok(RecoverableSignature(r, s, id, publicKey, false))
           case Err(e) => Err(e)
  {
    var pk := ShortTlv(env.pubKeyTag, publicKey);
    var ri := ShortTlv(env.intTag, rInt);
    var si := ShortTlv(env.intTag, sInt);
    var data := TemplateWire(env, publicKey, rInt, sInt, outerLen, innerLen);
    var a := [SIGNATURE_TEMPLATE, 0x81, outerLen];
    var b := a + pk;
    var c := b + [ECDSA_TEMPLATE, innerLen];
    var d := c + ri;
    assert data[0] == SIGNATURE_TEMPLATE && data[1] == 0x81 && data[2] == outerLen;
    assert HeaderAt(data, 0, SIGNATURE_TEMPLATE) == Ok((outerLen as nat, 3));
    assert data == a + pk + ([ECDSA_TEMPLATE, innerLen] + ri + si);
    PrimitiveAtShort(a, env.pubKeyTag, publicKey, [ECDSA_TEMPLATE, innerLen] + ri + si);
    assert data == b + [ECDSA_TEMPLATE, innerLen] + (ri + si);
    HeaderAtShort(b, ECDSA_TEMPLATE, innerLen, ri + si);
    assert data == c + ri + si;
    PrimitiveAtShort(c, env.intTag, rInt, si);
    assert data == d + si + [];
    PrimitiveAtShort(d, env.intTag, sInt, []);
  }

  /** A raw-form and a template-form encoding of the same signature decode
      to the same value when the raw id is the lowest recovering id and the
      template integers strip to the raw r and s. */
  lemma RawAndTemplateAgree(env: Env, hash: Bytes, r: Bytes, s: Bytes, recId: byte, publicKey: Bytes,
                            rInt: Bytes, sInt: Bytes, outerLen: byte, innerLen: byte)
    requires |r| == 32 && |s| == 32
    requires |publicKey| < 0x80 && |rInt| < 0x80 && |sInt| < 0x80
    requires innerLen < 0x80
    requires env.dropZeroPrefix(rInt) == r && env.dropZeroPrefix(sInt) == s
    requires recId <= 3 && Recovers(env, hash, publicKey, r, s, false, recId)
    requires forall j: byte :: j < recId ==> !Recovers(env, hash, publicKey, r, s, false, j)
    ensures Decoded(env, hash, RawWire(r, s, recId))
         == Decoded(env, hash, TemplateWire(env, publicKey, rInt, sInt, outerLen, innerLen))
         == Ok(RecoverableSignature(r, s, recId, publicKey, false))
  {
    RecIdIsLowest(env, hash, publicKey, r, s, false);
    assert RecId(env, hash, publicKey, r, s, false) == Ok(recId);
    DecodeRawWire(env, hash, r, s, recId);
    DecodeTemplateWire(env, hash, publicKey, rInt, sInt, outerLen, innerLen);
  }
}
