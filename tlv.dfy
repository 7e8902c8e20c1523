/** A minimal BER-TLV cursor, standing in for the reader the decoders drive.
    Tags are one byte; a length is one byte below 0x80, or 0x81 followed by
    one byte, or 0x82 followed by two big-endian bytes.  The pure functions
    say what a read at a position yields and where the cursor ends up; the
    class holds the cursor the decoders move step by step. */
module Tlv {
  import opened KeycardBase

  /** The tag byte at `p` and the position after it. */
  function TagAt(buf: Bytes, p: nat): Result<(byte, nat)>
  {
    if p < |buf| then Ok((buf[p], p + 1)) else Err(EndOfTlv)
  }

  /** The length field at `p` and the position after it. */
  function LengthAt(buf: Bytes, p: nat): Result<(nat, nat)>
  {
    if p >= |buf| then Err(EndOfTlv)
    else if buf[p] < 0x80 then Ok((buf[p], p + 1))
    else if buf[p] == 0x81 then
      if p + 1 < |buf| then Ok((buf[p + 1], p + 2)) else Err(EndOfTlv)
    else if buf[p] == 0x82 then
      if p + 2 < |buf| then Ok(((buf[p + 1] as nat) * 0x100 + buf[p + 2], p + 3)) else Err(EndOfTlv)
    else Err(MalformedLength)
  }

  /** A tag that must equal `tag`, then its length: the declared length and
      the position of the first value byte. */
  function HeaderAt(buf: Bytes, p: nat, tag: byte): (h: Result<(nat, nat)>)
    ensures h.Ok? ==> p < |buf| && buf[p] == tag && p + 2 <= h.value.1 <= |buf|
  {
    var t :- TagAt(buf, p);
    if t.0 != tag then Err(UnexpectedTag(tag, t.0)) else LengthAt(buf, t.1)
  }

  /** A primitive with tag `tag` at `p`: its value bytes and the position
      after them.  The value is exactly the bytes ending at that position. */
  function PrimitiveAt(buf: Bytes, p: nat, tag: byte): (v: Result<(Bytes, nat)>)
    ensures v.Ok? ==> p + 2 + |v.value.0| <= v.value.1 <= |buf|
    ensures v.Ok? ==> v.value.0 == buf[v.value.1 - |v.value.0| .. v.value.1]
  {
    var h :- HeaderAt(buf, p, tag);
    if h.1 + h.0 <= |buf| then Ok((buf[h.1 .. h.1 + h.0], h.1 + h.0)) else Err(EndOfTlv)
  }

  /** The outcome of a read and the cursor after it; a failed read leaves
      the cursor where it was. */
  function Step<T>(r: Result<(T, nat)>, p: nat): (Result<T>, nat)
  {
    match r
    case Ok((v, q)) => (Ok(v), q)
    case Err(e) => (Err(e), p)
  }

  /** The outcome of a read without the cursor position. */
  function Drop<T>(r: Result<(T, nat)>): Result<T>
  {
    match r
    case Ok((v, _)) => Ok(v)
    case Err(e) => Err(e)
  }

  /** A primitive written with a one-byte length. */
  function ShortTlv(tag: byte, value: Bytes): Bytes
    requires |value| < 0x80
  {
    [tag, |value|] + value
  }

  /** Reading a primitive at the end of `pre` yields what ShortTlv wrote. */
  lemma PrimitiveAtShort(pre: Bytes, tag: byte, value: Bytes, post: Bytes)
    requires |value| < 0x80
    ensures PrimitiveAt(pre + ShortTlv(tag, value) + post, |pre|, tag)
         == Ok((value, |pre| + 2 + |value|))
  {
    var buf := pre + ShortTlv(tag, value) + post;
    assert buf[|pre|] == tag && buf[|pre| + 1] == |value|;
    assert buf[|pre| + 2 .. |pre| + 2 + |value|] == value;
  }

  /** Reading a constructed header with a one-byte length at the end of `pre`. */
  lemma HeaderAtShort(pre: Bytes, tag: byte, len: byte, post: Bytes)
    requires len < 0x80
    ensures HeaderAt(pre + [tag, len] + post, |pre|, tag) == Ok((len as nat, |pre| + 2))
  {
    var buf := pre + [tag, len] + post;
    assert buf[|pre|] == tag && buf[|pre| + 1] == len;
  }

  /** The cursor over one buffer. */
  class TinyBerTlv {
    const buffer: Bytes
    var pos: nat

    ghost predicate Valid()
      reads this
    {
      pos <= |buffer|
    }

    constructor (data: Bytes)
      ensures Valid() && buffer == data && pos == 0
    {
      buffer := data;
      pos := 0;
    }

    method ReadTag() returns (r: Result<byte>)
      requires Valid()
      modifies this
      ensures Valid()
      ensures (r, pos) == Step(TagAt(buffer, old(pos)), old(pos))
    {
      if pos < |buffer| {
        r := Ok(buffer[pos]);
        pos := pos + 1;
      } else {
        r := Err(EndOfTlv);
      }
    }

    /** Steps back over the tag just read. */
    method UnreadLastTag()
      requires Valid()
      modifies this
      ensures Valid()
      ensures pos == if old(pos) > 0 then old(pos) - 1 else 0
    {
      if pos > 0 {
        pos := pos - 1;
      }
    }

    method ReadLength() returns (r: Result<nat>)
      requires Valid()
      modifies this
      ensures Valid()
      ensures (r, pos) == Step(LengthAt(buffer, old(pos)), old(pos))
    {
      var l := LengthAt(buffer, pos);
      if l.Ok? {
        r, pos := Ok(l.value.0), l.value.1;
      } else {
        r := Err(l.error);
      }
    }

    /** Reads the header of a constructed value with tag `tag` and moves
        the cursor onto its first inner byte. */
    method EnterConstructed(tag: byte) returns (r: Result<nat>)
      requires Valid()
      modifies this
      ensures Valid()
      ensures (r, pos) == Step(HeaderAt(buffer, old(pos), tag), old(pos))
    {
      var t := ReadTag();
      if t.Err? {
        return Err(t.error);
      }
      if t.value != tag {
        UnreadLastTag();
        return Err(UnexpectedTag(tag, t.value));
      }
      r := ReadLength();
      if r.Err? {
        UnreadLastTag();
      }
    }

    /** Reads a primitive with tag `tag` and returns its value bytes. */
    method ReadPrimitive(tag: byte) returns (r: Result<Bytes>)
      requires Valid()
      modifies this
      ensures Valid()
      ensures (r, pos) == Step(PrimitiveAt(buffer, old(pos), tag), old(pos))
    {
      var start := pos;
      var len := EnterConstructed(tag);
      if len.Err? {
        return Err(len.error);
      }
      if pos + len.value > |buffer| {
        pos := start;
        return Err(EndOfTlv);
      }
      r := Ok(buffer[pos .. pos + len.value]);
      pos := pos + len.value;
    }

    /** Every byte after the cursor, without moving it. */
    method PeekUnread() returns (r: Bytes)
      requires Valid()
      ensures r == buffer[pos..]
    {
      r := buffer[pos..];
    }
  }
}
