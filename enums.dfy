/**
 * The record content types and protocol versions, each a closed set of known
 * values plus an `Unknown` case carrying any other wire value (the shape of
 * rustls' enums). Wire values: section 5.1 and appendix B.3 of RFC 8446,
 * section 6.2.1 of RFC 5246 and RFC 6520 for Heartbeat.
 */
module Enums {
  import opened Codec

  datatype ContentType =
    | ChangeCipherSpec
    | Alert
    | Handshake
    | ApplicationData
    | Heartbeat
    | Unknown(byte: Byte)

  /** The wire value of a content type. */
  function ContentTypeToByte(t: ContentType): Byte
  {
    match t
    case ChangeCipherSpec => 0x14
    case Alert => 0x15
    case Handshake => 0x16
    case ApplicationData => 0x17
    case Heartbeat => 0x18
    case Unknown(b) => b
  }

  /** `ContentType::read` on one byte: a known value, or `Unknown` for anything else. */
  function ContentTypeFromByte(b: Byte): (t: ContentType)
    ensures ContentTypeToByte(t) == b
    ensures t.Unknown? <==> !(0x14 <= b <= 0x18)
  {
    match b
    case 0x14 => ChangeCipherSpec
    case 0x15 => Alert
    case 0x16 => Handshake
    case 0x17 => ApplicationData
    case 0x18 => Heartbeat
    case _ => ContentType.Unknown(b)
  }

  datatype ProtocolVersion =
    | SSLv2
    | SSLv3
    | TLSv1_0
    | TLSv1_1
    | TLSv1_2
    | TLSv1_3
    | DTLSv1_0
    | DTLSv1_2
    | Unknown(value: U16)

  /** The wire value of a protocol version. */
  function VersionToU16(v: ProtocolVersion): U16
  {
    match v
    case SSLv2 => 0x0200
    case SSLv3 => 0x0300
    case TLSv1_0 => 0x0301
    case TLSv1_1 => 0x0302
    case TLSv1_2 => 0x0303
    case TLSv1_3 => 0x0304
    case DTLSv1_0 => 0xfeff
    case DTLSv1_2 => 0xfefd
    case Unknown(x) => x
  }

  /** `ProtocolVersion::read` on a 16-bit value. */
  function VersionFromU16(x: U16): (v: ProtocolVersion)
    ensures VersionToU16(v) == x
    ensures v.Unknown? <==> x !in {0x0200, 0x0300, 0x0301, 0x0302, 0x0303, 0x0304, 0xfeff, 0xfefd}
  {
    match x
    case 0x0200 => SSLv2
    case 0x0300 => SSLv3
    case 0x0301 => TLSv1_0
    case 0x0302 => TLSv1_1
    case 0x0303 => TLSv1_2
    case 0x0304 => TLSv1_3
    case 0xfeff => DTLSv1_0
    case 0xfefd => DTLSv1_2
    case _ => ProtocolVersion.Unknown(x)
  }
}
