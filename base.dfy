/**
 * Opaque byte payloads: the unprefixed `Payload` and the payloads carried
 * behind a 1-, 2- or 3-byte big-endian length (`PayloadU8`, `PayloadU16`,
 * `PayloadU24`).
 *
 * `encode` appends to a caller-provided vector; here it takes the vector's
 * current contents `out` and returns the extended contents. `read` advances
 * a reader; here it takes the unread bytes and returns the value with what
 * is left.
 */
module Base {
  import opened Wrappers
  import opened Codec

  datatype Payload = Payload(bytes: seq<Byte>)

  datatype PayloadU8 = PayloadU8(bytes: seq<Byte>)

  datatype PayloadU16 = PayloadU16(bytes: seq<Byte>)

  datatype PayloadU24 = PayloadU24(bytes: seq<Byte>)

  // ----- the unprefixed payload -----

  /** `Payload::encode`: the raw bytes, appended with no prefix. */
  function EncodePayload(p: Payload, out: seq<Byte>): (r: seq<Byte>)
    ensures |r| == |out| + |p.bytes|
    ensures r[..|out|] == out && r[|out|..] == p.bytes
  {
    out + p.bytes
  }

  /** `Payload::read`: takes every remaining byte and never fails. */
  function ReadPayload(r: seq<Byte>): (res: Option<(Payload, seq<Byte>)>)
    ensures res.Some? && res.value.1 == [] && res.value.0.bytes == r
  {
    Some((Payload(r), []))
  }

  // ----- the length-prefixed payloads, one definition for all widths -----

  /**
   * Appends the length of `b` as a `w`-byte big-endian integer and then `b`.
   * The length is cast to the prefix width first (`len() as u8`, `as u16`;
   * `as u32` followed by the 3-byte `u24` encoding), so a payload longer than
   * the width can express gets a wrapped-around prefix.
   */
  function EncodePrefixed(w: nat, b: seq<Byte>, out: seq<Byte>): (r: seq<Byte>)
    ensures |r| == |out| + w + |b|
    ensures r[..|out|] == out
    ensures FromBigEndian(r[|out|..|out| + w]) == |b| % Pow256(w)
    ensures r[|out| + w..] == b
  {
    var prefix := ToBigEndian(|b| % Pow256(w), w);
    FromToBigEndian(|b| % Pow256(w), w);
    assert (out + prefix + b)[|out|..|out| + w] == prefix;
    out + prefix + b
  }

  /** The bytes `EncodePrefixed` produces. */
  lemma EncodePrefixedShape(w: nat, b: seq<Byte>, out: seq<Byte>)
    requires |b| < Pow256(w)
    ensures EncodePrefixed(w, b, out) == out + ToBigEndian(|b|, w) + b
  {
    ModOfSmaller(|b|, Pow256(w));
  }

  lemma ModOfSmaller(a: nat, m: nat)
    requires a < m
    ensures a % m == a
  {
  }

  /**
   * Reads a `w`-byte length (`u8::read`, `u16::read`, `u24::read`) and then
   * exactly that many bytes (`Reader::sub`); nothing when the prefix is
   * incomplete or declares more bytes than remain.
   */
  function ReadPrefixed(w: nat, r: seq<Byte>): (res: Option<(seq<Byte>, seq<Byte>)>)
    ensures res.Some? <==> |r| >= w && FromBigEndian(r[..w]) <= |r| - w
    ensures res.Some? ==> |res.value.0| == FromBigEndian(r[..w])
    ensures res.Some? ==> r == EncodePrefixed(w, res.value.0, []) + res.value.1
  {
    match ReadUInt(r, w)
    case None => None
    case Some((len, rest)) =>
      assert r[..w] == ToBigEndian(len, w);
      FromToBigEndian(len, w);
      match Sub(rest, len)
      case None => None
      case Some((body, left)) =>
        EncodePrefixedShape(w, body, []);
        Some((body, left))
  }

  /** A prefixed payload short enough for its prefix reads back, and the bytes after it are left. */
  lemma PrefixedRoundTrip(w: nat, b: seq<Byte>, rest: seq<Byte>)
    requires |b| < Pow256(w)
    ensures ReadPrefixed(w, EncodePrefixed(w, b, []) + rest) == Some((b, rest))
  {
    EncodePrefixedShape(w, b, []);
    var prefix := ToBigEndian(|b|, w);
    var r := prefix + b + rest;
    assert r[..w] == prefix;
    FromToBigEndian(|b|, w);
    var res := ReadPrefixed(w, r);
    EncodePrefixedShape(w, res.value.0, []);
    assert |res.value.0| == |b|;
    assert r[w..] == b + rest;
  }

  // ----- PayloadU8 -----

  /** `PayloadU8::encode`: a 1-byte length, then the bytes. */
  function EncodeU8(p: PayloadU8, out: seq<Byte>): (r: seq<Byte>)
    ensures |r| == |out| + 1 + |p.bytes| && r[..|out|] == out
    ensures r[|out|] == |p.bytes| % 0x100 && r[|out| + 1..] == p.bytes
  {
    var r := EncodePrefixed(1, p.bytes, out);
    assert r[|out|..|out| + 1] == [r[|out|]];
    assert FromBigEndian([r[|out|]]) == r[|out|] by {
      assert [r[|out|]][..0] == [];
    }
    r
  }

  /** `PayloadU8::read`. */
  function ReadU8Payload(r: seq<Byte>): (res: Option<(PayloadU8, seq<Byte>)>)
    ensures res.Some? <==> |r| >= 1 && r[0] <= |r| - 1
    ensures res.Some? ==> |res.value.0.bytes| == FromBigEndian(r[..1])
    ensures res.Some? ==> r == EncodeU8(res.value.0, []) + res.value.1
  {
    assert |r| >= 1 ==> FromBigEndian(r[..1]) == r[0] by {
      if |r| >= 1 { assert r[..1][..0] == []; }
    }
    match ReadPrefixed(1, r)
    case None => None
    case Some((body, rest)) => Some((PayloadU8(body), rest))
  }

  lemma PayloadU8RoundTrip(p: PayloadU8, rest: seq<Byte>)
    requires |p.bytes| <= 0xff
    ensures ReadU8Payload(EncodeU8(p, []) + rest) == Some((p, rest))
  {
    PrefixedRoundTrip(1, p.bytes, rest);
  }

  // ----- PayloadU16 -----

  /** `PayloadU16::encode` (through `encode_slice`): a 2-byte big-endian length, then the bytes. */
  function EncodeU16(p: PayloadU16, out: seq<Byte>): (r: seq<Byte>)
    ensures |r| == |out| + 2 + |p.bytes| && r[..|out|] == out
    ensures FromBigEndian(r[|out|..|out| + 2]) == |p.bytes| % 0x1_0000
    ensures r[|out| + 2..] == p.bytes
  {
    EncodePrefixed(2, p.bytes, out)
  }

  /** `PayloadU16::read`. */
  function ReadU16Payload(r: seq<Byte>): (res: Option<(PayloadU16, seq<Byte>)>)
    ensures res.Some? <==> |r| >= 2 && FromBigEndian(r[..2]) <= |r| - 2
    ensures res.Some? ==> |res.value.0.bytes| == FromBigEndian(r[..2])
    ensures res.Some? ==> r == EncodeU16(res.value.0, []) + res.value.1
  {
    match ReadPrefixed(2, r)
    case None => None
    case Some((body, rest)) => Some((PayloadU16(body), rest))
  }

  lemma PayloadU16RoundTrip(p: PayloadU16, rest: seq<Byte>)
    requires |p.bytes| <= 0xffff
    ensures ReadU16Payload(EncodeU16(p, []) + rest) == Some((p, rest))
  {
    PrefixedRoundTrip(2, p.bytes, rest);
  }

  // ----- PayloadU24 -----

  /** `PayloadU24::encode`: a 3-byte big-endian length, then the bytes. */
  function EncodeU24(p: PayloadU24, out: seq<Byte>): (r: seq<Byte>)
    ensures |r| == |out| + 3 + |p.bytes| && r[..|out|] == out
    ensures FromBigEndian(r[|out|..|out| + 3]) == |p.bytes| % 0x100_0000
    ensures r[|out| + 3..] == p.bytes
  {
    EncodePrefixed(3, p.bytes, out)
  }

  /** `PayloadU24::read`. */
  function ReadU24Payload(r: seq<Byte>): (res: Option<(PayloadU24, seq<Byte>)>)
    ensures res.Some? <==> |r| >= 3 && FromBigEndian(r[..3]) <= |r| - 3
    ensures res.Some? ==> |res.value.0.bytes| == FromBigEndian(r[..3])
    ensures res.Some? ==> r == EncodeU24(res.value.0, []) + res.value.1
  {
    match ReadPrefixed(3, r)
    case None => None
    case Some((body, rest)) => Some((PayloadU24(body), rest))
  }

  lemma PayloadU24RoundTrip(p: PayloadU24, rest: seq<Byte>)
    requires |p.bytes| <= 0xff_ffff
    ensures ReadU24Payload(EncodeU24(p, []) + rest) == Some((p, rest))
  {
    PrefixedRoundTrip(3, p.bytes, rest);
  }

  /**
   * Encodings written one after another read back one after another, in
   * order: each read consumes exactly its own prefix and body.
   */
  lemma PayloadU16SequenceRoundTrip(a: PayloadU16, b: PayloadU16)
    requires |a.bytes| <= 0xffff && |b.bytes| <= 0xffff
    ensures
      var wire := EncodeU16(b, EncodeU16(a, []));
      ReadU16Payload(wire) == Some((a, EncodeU16(b, [])))
      && ReadU16Payload(EncodeU16(b, [])) == Some((b, []))
  {
    var ea := EncodeU16(a, []);
    var wire := EncodeU16(b, ea);
    assert wire == ea + EncodeU16(b, []);
    PayloadU16RoundTrip(a, EncodeU16(b, []));
    PayloadU16RoundTrip(b, []);
    assert EncodeU16(b, []) + [] == EncodeU16(b, []);
  }
}
