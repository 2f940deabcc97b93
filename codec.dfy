/**
 * Wire primitives: bytes, big-endian unsigned integers of a fixed width
 * (network byte order, section 3.3 of RFC 8446) and a byte reader.
 *
 * A `Reader` over a byte slice is modelled by the bytes it has not yet
 * consumed: every read returns the value together with what is left.
 */
module Codec {
  import opened Wrappers

  type Byte = b: int | 0 <= b < 0x100

  type U16 = v: nat | v < 0x1_0000

  /** 256 to the power `w`: the number of values a `w`-byte integer holds. */
  function Pow256(w: nat): (r: nat)
    ensures r >= 1
  {
    if w == 0 then 1 else 0x100 * Pow256(w - 1)
  }

  /** The `w`-byte big-endian encoding of `v`. */
  function ToBigEndian(v: nat, w: nat): (r: seq<Byte>)
    requires v < Pow256(w)
    ensures |r| == w
  {
    if w == 0 then []
    else
      assert v / 0x100 < Pow256(w - 1);
      ToBigEndian(v / 0x100, w - 1) + [v % 0x100]
  }

  /** The value of a big-endian byte string. */
  function FromBigEndian(b: seq<Byte>): (v: nat)
    ensures v < Pow256(|b|)
  {
    if b == [] then 0 else FromBigEndian(b[..|b| - 1]) * 0x100 + b[|b| - 1]
  }

  lemma {:induction false} FromToBigEndian(v: nat, w: nat)
    requires v < Pow256(w)
    ensures FromBigEndian(ToBigEndian(v, w)) == v
  {
    if w > 0 {
      var hi := ToBigEndian(v / 0x100, w - 1);
      assert ToBigEndian(v, w)[..w - 1] == hi;
      FromToBigEndian(v / 0x100, w - 1);
    }
  }

  lemma {:induction false} ToFromBigEndian(b: seq<Byte>)
    ensures ToBigEndian(FromBigEndian(b), |b|) == b
  {
    if b != [] {
      var init := b[..|b| - 1];
      ToFromBigEndian(init);
      var v := FromBigEndian(b);
      assert v / 0x100 == FromBigEndian(init);
      assert v % 0x100 == b[|b| - 1];
      assert b == init + [b[|b| - 1]];
    }
  }

  /**
   * Reads a `w`-byte big-endian unsigned integer (`u8::read`, `u16::read`,
   * `u24::read` for `w` = 1, 2, 3), or nothing when fewer than `w` bytes remain.
   */
  function ReadUInt(r: seq<Byte>, w: nat): (res: Option<(nat, seq<Byte>)>)
    ensures res.Some? <==> |r| >= w
    ensures res.Some? ==> res.value.0 < Pow256(w) && r == ToBigEndian(res.value.0, w) + res.value.1
  {
    if |r| < w then None
    else
      ToFromBigEndian(r[..w]);
      assert r == r[..w] + r[w..];
      Some((FromBigEndian(r[..w]), r[w..]))
  }

  /** `Reader::sub`: split off exactly `len` bytes, or nothing when fewer remain. */
  function Sub(r: seq<Byte>, len: nat): (res: Option<(seq<Byte>, seq<Byte>)>)
    ensures res.Some? <==> len <= |r|
    ensures res.Some? ==> |res.value.0| == len && r == res.value.0 + res.value.1
  {
    if |r| < len then None else Some((r[..len], r[len..]))
  }
}
