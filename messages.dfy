/**
 * The three forms of a TLS record (message.rs): the on-wire `OpaqueMessage`
 * (TLSPlaintext / TLSCiphertext of section 5.1 of RFC 8446), the decrypted
 * `PlainMessage` and the decoded `Message`, with the conversions between them.
 */
module Messages {
  import opened Wrappers
  import opened Codec
  import opened Base
  import opened Enums
  import opened Errors

  /** Content type, version and length. */
  const HEADER_SIZE: nat := 1 + 2 + 2

  /** 2^14 payload bytes and a 2048-byte allowance for ciphertext expansion (section 6.2.3 of RFC 5246). */
  const MAX_PAYLOAD: nat := 16384 + 2048

  /** The largest record on the wire. */
  const MAX_WIRE_SIZE: nat := MAX_PAYLOAD + HEADER_SIZE

  datatype MessageError =
    | TooShortForHeader
    | TooShortForLength
    | IllegalLength
    | IllegalContentType
    | IllegalProtocolVersion

  /**
   * A mutable slice of the caller's buffer or an owned vector. Aliasing is
   * not modelled: both variants hold the bytes they show.
   */
  datatype Buffer = Slice(slice: seq<Byte>) | Vec(vec: seq<Byte>)
  {
    function AsRef(): seq<Byte>
    {
      match this
      case Slice(s) => s
      case Vec(v) => v
    }

    function Len(): (n: nat)
      ensures n == |AsRef()|
    {
      match this
      case Slice(s) => |s|
      case Vec(v) => |v|
    }

    /**
     * `Buffer::truncate`: keeps the first `n` bytes. Reslicing a slice past its
     * end panics, so a slice needs `n <= Len()`; `Vec::truncate` past the end
     * does nothing.
     */
    function Truncate(n: nat): (b: Buffer)
      requires Slice? ==> n <= Len()
      ensures b.Slice? == Slice?
      ensures n <= Len() ==> b.Len() == n && b.AsRef() == AsRef()[..n]
      ensures n > Len() ==> b == this
    {
      match this
      case Slice(s) => Slice(s[..n])
      case Vec(v) => if n <= |v| then Vec(v[..n]) else Vec(v)
    }
  }

  datatype OpaqueMessage = OpaqueMessage(typ: ContentType, version: ProtocolVersion, payload: Buffer)
  {
    /** The number of bytes this record occupies on the wire. */
    function Len(): (n: nat)
      ensures n == HEADER_SIZE + |payload.AsRef()|
    {
      HEADER_SIZE + payload.Len()
    }
  }

  datatype PlainMessage = PlainMessage(typ: ContentType, version: ProtocolVersion, payload: Payload)

  datatype BorrowedPlainMessage = BorrowedPlainMessage(typ: ContentType, version: ProtocolVersion, payload: seq<Byte>)

  // ----- the record header fields -----

  function HeaderType(buf: seq<Byte>): ContentType
    requires |buf| >= HEADER_SIZE
  {
    ContentTypeFromByte(buf[0])
  }

  function HeaderVersion(buf: seq<Byte>): ProtocolVersion
    requires |buf| >= HEADER_SIZE
  {
    VersionFromU16(FromBigEndian(buf[1..3]))
  }

  function HeaderLength(buf: seq<Byte>): nat
    requires |buf| >= HEADER_SIZE
  {
    FromBigEndian(buf[3..5])
  }

  /** Only versions 0x03XX are accepted; every known version variant passes. */
  predicate VersionAcceptable(v: ProtocolVersion)
  {
    !v.Unknown? || v.value / 0x100 == 0x03
  }

  /**
   * `OpaqueMessage::read`: parse and validate a record header, in a fixed
   * order: header present; no empty record except application data;
   * length below MAX_PAYLOAD; a known content type; an acceptable version;
   * the whole payload present. The first check that fails decides the error.
   */
  function ReadOpaque(buf: seq<Byte>): (r: Result<OpaqueMessage, MessageError>)
    ensures r == Err(TooShortForHeader) <==> |buf| < HEADER_SIZE
    ensures r == Err(IllegalLength) <==>
      |buf| >= HEADER_SIZE
      && ((HeaderType(buf) != ContentType.ApplicationData && HeaderLength(buf) == 0) || HeaderLength(buf) >= MAX_PAYLOAD)
    ensures r == Err(IllegalContentType) <==>
      |buf| >= HEADER_SIZE && (HeaderType(buf) == ContentType.ApplicationData || 0 < HeaderLength(buf) < MAX_PAYLOAD)
      && HeaderType(buf).Unknown?
    ensures r == Err(IllegalProtocolVersion) <==>
      |buf| >= HEADER_SIZE && (HeaderType(buf) == ContentType.ApplicationData || 0 < HeaderLength(buf)) && HeaderLength(buf) < MAX_PAYLOAD
      && !HeaderType(buf).Unknown? && !VersionAcceptable(HeaderVersion(buf))
    ensures r == Err(TooShortForLength) <==>
      |buf| >= HEADER_SIZE && (HeaderType(buf) == ContentType.ApplicationData || 0 < HeaderLength(buf)) && HeaderLength(buf) < MAX_PAYLOAD
      && !HeaderType(buf).Unknown? && VersionAcceptable(HeaderVersion(buf))
      && |buf| < HEADER_SIZE + HeaderLength(buf)
    ensures r.Ok? ==>
      && |buf| >= HEADER_SIZE
      && r.value.typ == HeaderType(buf) && !r.value.typ.Unknown?
      && r.value.version == HeaderVersion(buf) && VersionAcceptable(r.value.version)
      && r.value.Len() == HEADER_SIZE + HeaderLength(buf) <= |buf|
      && r.value.Len() <= MAX_WIRE_SIZE
      && r.value.payload == Slice(buf[HEADER_SIZE..r.value.Len()])
  {
    if |buf| < HEADER_SIZE then Err(TooShortForHeader)
    else
      var typ := HeaderType(buf);
      var version := HeaderVersion(buf);
      var len := HeaderLength(buf);
      if typ != ContentType.ApplicationData && len == 0 then Err(IllegalLength)
      else if len >= MAX_PAYLOAD then Err(IllegalLength)
      else if typ.Unknown? then Err(IllegalContentType)
      else if !VersionAcceptable(version) then Err(IllegalProtocolVersion)
      else if |buf| - HEADER_SIZE < len then Err(TooShortForLength)
      else Ok(OpaqueMessage(typ, version, Slice(buf[HEADER_SIZE..HEADER_SIZE + len])))
  }

  /**
   * `OpaqueMessage::encode`: type byte, 2-byte version, 2-byte big-endian
   * length (`len() as u16`, so wrapped modulo 2^16) and the payload.
   */
  function EncodeOpaque(m: OpaqueMessage): (r: seq<Byte>)
    ensures |r| == m.Len()
    ensures r[0] == ContentTypeToByte(m.typ)
    ensures FromBigEndian(r[1..3]) == VersionToU16(m.version)
    ensures FromBigEndian(r[3..5]) == m.payload.Len() % 0x1_0000
    ensures r[HEADER_SIZE..] == m.payload.AsRef()
  {
    var version := U16Bytes(VersionToU16(m.version));
    var len := U16Bytes(m.payload.Len() % 0x1_0000);
    var r := [ContentTypeToByte(m.typ)] + version + len + m.payload.AsRef();
    assert r[1..3] == version && r[3..5] == len;
    r
  }

  /** The 2-byte big-endian encoding of a 16-bit value. */
  function U16Bytes(v: U16): (r: seq<Byte>)
    ensures |r| == 2 && FromBigEndian(r) == v
  {
    assert Pow256(2) == 0x1_0000;
    FromToBigEndian(v, 2);
    ToBigEndian(v, 2)
  }

  /** Re-encoding a record that was read reproduces the bytes it was read from. */
  lemma {:induction false} RecordRoundTrip(buf: seq<Byte>)
    requires ReadOpaque(buf).Ok?
    ensures EncodeOpaque(ReadOpaque(buf).value) == buf[..ReadOpaque(buf).value.Len()]
  {
    var m := ReadOpaque(buf).value;
    var enc := EncodeOpaque(m);
    ToFromBigEndian(buf[1..3]);
    ToFromBigEndian(buf[3..5]);
    ToFromBigEndian(enc[1..3]);
    ToFromBigEndian(enc[3..5]);
    assert m.payload.Len() % 0x1_0000 == HeaderLength(buf);
    assert enc[1..3] == buf[1..3];
    assert enc[3..5] == buf[3..5];
    assert enc == enc[..1] + enc[1..3] + enc[3..5] + enc[5..];
    assert buf[..m.Len()] == buf[..1] + buf[1..3] + buf[3..5] + buf[5..m.Len()];
  }

  /** A record whose header passes every check. */
  predicate Acceptable(m: OpaqueMessage)
  {
    && ContentTypeFromByte(ContentTypeToByte(m.typ)) == m.typ
    && VersionFromU16(VersionToU16(m.version)) == m.version
    && !m.typ.Unknown?
    && (m.typ == ContentType.ApplicationData || m.payload.Len() > 0)
    && m.payload.Len() < MAX_PAYLOAD
    && VersionAcceptable(m.version)
  }

  /** The other direction: an acceptable record reads back from its encoding, whatever follows it. */
  lemma {:induction false} EncodeReadRoundTrip(m: OpaqueMessage, rest: seq<Byte>)
    requires Acceptable(m)
    ensures ReadOpaque(EncodeOpaque(m) + rest) == Ok(OpaqueMessage(m.typ, m.version, Slice(m.payload.AsRef())))
  {
    var enc := EncodeOpaque(m);
    var buf := enc + rest;
    assert buf[..5] == enc[..5];
    assert buf[1..3] == enc[1..3] && buf[3..5] == enc[3..5];
    assert HeaderVersion(buf) == m.version;
    assert buf[HEADER_SIZE..HEADER_SIZE + m.payload.Len()] == enc[HEADER_SIZE..];
  }

  /** A complete record stays the same record when more bytes arrive after it. */
  lemma ReadIsPrefixStable(buf: seq<Byte>, more: seq<Byte>)
    requires ReadOpaque(buf).Ok?
    ensures ReadOpaque(buf + more) == ReadOpaque(buf)
  {
    var b := buf + more;
    assert b[..HEADER_SIZE] == buf[..HEADER_SIZE];
    assert b[1..3] == buf[1..3] && b[3..5] == buf[3..5];
    var n := ReadOpaque(buf).value.Len();
    assert b[HEADER_SIZE..n] == buf[HEADER_SIZE..n];
  }

  /** Every error except the two "too short" ones is permanent: more bytes do not change it. */
  lemma ReadErrorIsPermanent(buf: seq<Byte>, more: seq<Byte>)
    requires ReadOpaque(buf).Err?
    requires ReadOpaque(buf).error != TooShortForHeader && ReadOpaque(buf).error != TooShortForLength
    ensures ReadOpaque(buf + more) == ReadOpaque(buf)
  {
    var b := buf + more;
    assert b[1..3] == buf[1..3] && b[3..5] == buf[3..5] && b[0] == buf[0];
  }

  /** "Too short for length" is a retry-later condition: the missing bytes complete the record. */
  lemma TooShortForLengthCompletes(buf: seq<Byte>, more: seq<Byte>)
    requires ReadOpaque(buf) == Err(TooShortForLength)
    requires |buf + more| >= HEADER_SIZE + HeaderLength(buf)
    ensures ReadOpaque(buf + more).Ok?
  {
    var b := buf + more;
    assert b[1..3] == buf[1..3] && b[3..5] == buf[3..5] && b[0] == buf[0];
  }

  // ----- conversions between the forms -----

  /** `OpaqueMessage::to_plain_message`: an owned copy of the record's fields. */
  function ToPlainMessage(m: OpaqueMessage): (p: PlainMessage)
    ensures p.typ == m.typ && p.version == m.version && p.payload.bytes == m.payload.AsRef()
  {
    PlainMessage(m.typ, m.version, Payload(m.payload.AsRef()))
  }

  /** `OpaqueMessage::to_owned`: the same record over an owned vector. */
  function ToOwned(m: OpaqueMessage): (o: OpaqueMessage)
    ensures o.typ == m.typ && o.version == m.version && o.payload == Vec(m.payload.AsRef())
    ensures o.Len() == m.Len()
  {
    OpaqueMessage(m.typ, m.version, Vec(m.payload.AsRef()))
  }

  /** `PlainMessage::into_unencrypted_opaque`. */
  function IntoUnencryptedOpaque(p: PlainMessage): (o: OpaqueMessage)
    ensures o.typ == p.typ && o.version == p.version && o.payload == Vec(p.payload.bytes)
  {
    OpaqueMessage(p.typ, p.version, Vec(p.payload.bytes))
  }

  /** `PlainMessage::borrow`. */
  function Borrow(p: PlainMessage): (b: BorrowedPlainMessage)
    ensures b.typ == p.typ && b.version == p.version && b.payload == p.payload.bytes
  {
    BorrowedPlainMessage(p.typ, p.version, p.payload.bytes)
  }

  /** `BorrowedPlainMessage::to_unencrypted_opaque`. */
  function ToUnencryptedOpaque(b: BorrowedPlainMessage): (o: OpaqueMessage)
    ensures o.typ == b.typ && o.version == b.version && o.payload == Vec(b.payload)
  {
    OpaqueMessage(b.typ, b.version, Vec(b.payload))
  }

  /** The conversions agree with each other: every path keeps type, version and bytes. */
  lemma ConversionsAgree(m: OpaqueMessage, p: PlainMessage)
    ensures IntoUnencryptedOpaque(ToPlainMessage(m)) == ToOwned(m)
    ensures ToUnencryptedOpaque(Borrow(p)) == IntoUnencryptedOpaque(p)
    ensures ToPlainMessage(IntoUnencryptedOpaque(p)) == p
    ensures EncodeOpaque(ToOwned(m)) == EncodeOpaque(m)
  {
  }

  // ----- the typed payloads -----
  // alert.rs, ccs.rs and handshake.rs are not part of this model; their
  // parsers are abstracted below by the framing that section 6 (alerts),
  // section 4 (handshake header) of RFC 8446 and section 7.1 of RFC 5246
  // (change cipher spec) fix.

  /** An alert: a level byte and a description byte. */
  datatype AlertMessagePayload = AlertMessagePayload(level: Byte, description: Byte)

  /** The change-cipher-spec body, the single byte 1. */
  datatype ChangeCipherSpecPayload = ChangeCipherSpecPayload

  /** A handshake message: its type byte and a 24-bit length-prefixed body kept opaque. */
  datatype HandshakeMessagePayload = HandshakeMessagePayload(typ: Byte, body: PayloadU24)

  function ReadAlert(r: seq<Byte>): (res: Option<(AlertMessagePayload, seq<Byte>)>)
    ensures res.Some? ==> r == EncodeAlert(res.value.0, []) + res.value.1
  {
    if |r| < 2 then None else Some((AlertMessagePayload(r[0], r[1]), r[2..]))
  }

  function EncodeAlert(a: AlertMessagePayload, out: seq<Byte>): (r: seq<Byte>)
    ensures |r| == |out| + 2 && r[..|out|] == out
  {
    out + [a.level, a.description]
  }

  function ReadChangeCipherSpec(r: seq<Byte>): (res: Option<(ChangeCipherSpecPayload, seq<Byte>)>)
    ensures res.Some? ==> r == EncodeChangeCipherSpec(res.value.0, []) + res.value.1
  {
    if |r| < 1 || r[0] != 1 then None else Some((ChangeCipherSpecPayload, r[1..]))
  }

  function EncodeChangeCipherSpec(c: ChangeCipherSpecPayload, out: seq<Byte>): (r: seq<Byte>)
    ensures |r| == |out| + 1 && r[..|out|] == out
  {
    out + [1]
  }

  /** `HandshakeMessagePayload::read_version`; the version only steers body parsing, which is not modelled. */
  function ReadHandshake(r: seq<Byte>, vers: ProtocolVersion): (res: Option<(HandshakeMessagePayload, seq<Byte>)>)
    ensures res.Some? ==> |r| >= 1 && r == [r[0]] + EncodeU24(res.value.0.body, []) + res.value.1
  {
    if |r| < 1 then None
    else
      match ReadU24Payload(r[1..])
      case None => None
      case Some((body, rest)) => Some((HandshakeMessagePayload(r[0], body), rest))
  }

  datatype MessagePayload =
    | Alert(alert: AlertMessagePayload)
    | Handshake(parsed: HandshakeMessagePayload, encoded: Payload)
    | ChangeCipherSpec(ccs: ChangeCipherSpecPayload)
    | ApplicationData(data: Payload)
  {
    /** `MessagePayload::content_type`. */
    function ContentTypeOf(): ContentType
    {
      match this
      case Alert(_) => ContentType.Alert
      case Handshake(_, _) => ContentType.Handshake
      case ChangeCipherSpec(_) => ContentType.ChangeCipherSpec
      case ApplicationData(_) => ContentType.ApplicationData
    }
  }

  /** `MessagePayload::encode`; a handshake payload writes back its retained encoding. */
  function EncodeMessagePayload(p: MessagePayload, out: seq<Byte>): (r: seq<Byte>)
    ensures |r| >= |out| && r[..|out|] == out
  {
    match p
    case Alert(a) => EncodeAlert(a, out)
    case Handshake(_, encoded) => out + encoded.bytes
    case ChangeCipherSpec(c) => EncodeChangeCipherSpec(c, out)
    case ApplicationData(d) => EncodePayload(d, out)
  }

  /**
   * `MessagePayload::new`: application data is taken as it is; an alert,
   * handshake or change-cipher-spec payload must parse and leave no byte
   * over; any other content type is refused.
   */
  function NewMessagePayload(typ: ContentType, vers: ProtocolVersion, payload: Payload): (r: Result<MessagePayload, Error>)
    ensures typ == ContentType.ApplicationData ==> r == Ok(MessagePayload.ApplicationData(payload))
    ensures typ.Heartbeat? || typ.Unknown? ==> r.Err?
    ensures r.Err? ==> r.error == CorruptMessagePayload(typ)
    ensures r.Ok? ==> r.value.ContentTypeOf() == typ
    ensures r.Ok? ==> EncodeMessagePayload(r.value, []) == payload.bytes
    ensures r.Ok? && r.value.Handshake? ==> r.value.encoded == payload
  {
    var b := payload.bytes;
    var parsed: Option<MessagePayload> :=
      match typ
      case ApplicationData => Some(MessagePayload.ApplicationData(payload))
      case Alert =>
        (match ReadAlert(b)
         case Some((a, rest)) => if rest == [] then Some(MessagePayload.Alert(a)) else None
         case None => None)
      case Handshake =>
        (match ReadHandshake(b, vers)
         case Some((h, rest)) => if rest == [] then Some(MessagePayload.Handshake(h, payload)) else None
         case None => None)
      case ChangeCipherSpec =>
        (match ReadChangeCipherSpec(b)
         case Some((c, rest)) => if rest == [] then Some(MessagePayload.ChangeCipherSpec(c)) else None
         case None => None)
      case _ => None;
    match parsed
    case Some(p) => Ok(p)
    case None => Err(CorruptMessagePayload(typ))
  }

  /** An alert payload decodes exactly when it is two bytes long. */
  lemma AlertPayloadExact(vers: ProtocolVersion, payload: Payload)
    ensures NewMessagePayload(ContentType.Alert, vers, payload).Ok? <==> |payload.bytes| == 2
  {
  }

  /** A change-cipher-spec payload decodes exactly when it is the single byte 1. */
  lemma ChangeCipherSpecPayloadExact(vers: ProtocolVersion, payload: Payload)
    ensures NewMessagePayload(ContentType.ChangeCipherSpec, vers, payload).Ok? <==> payload.bytes == [1]
  {
  }

  /** A 24-bit length-prefixed read leaves nothing over exactly when the length covers the rest. */
  lemma ReadU24Exact(r: seq<Byte>)
    ensures (ReadU24Payload(r).Some? && ReadU24Payload(r).value.1 == []) <==>
      |r| >= 3 && FromBigEndian(r[..3]) == |r| - 3
  {
    match ReadU24Payload(r)
    case None =>
    case Some((body, rest)) =>
      assert |r| == 3 + |body.bytes| + |rest|;
  }

  /** A handshake payload decodes exactly when its 24-bit length covers the rest of it. */
  lemma {:induction false} HandshakePayloadExact(vers: ProtocolVersion, payload: Payload)
    ensures NewMessagePayload(ContentType.Handshake, vers, payload).Ok? <==>
      |payload.bytes| >= 4 && FromBigEndian(payload.bytes[1..4]) == |payload.bytes| - 4
  {
    var b := payload.bytes;
    var h := ReadHandshake(b, vers);
    assert NewMessagePayload(ContentType.Handshake, vers, payload).Ok? <==> h.Some? && h.value.1 == [];
    if |b| >= 1 {
      ReadU24Exact(b[1..]);
      assert |b| >= 4 ==> b[1..][..3] == b[1..4];
    }
  }

  /** A message with a decoded payload. */
  datatype Message = Message(version: ProtocolVersion, payload: MessagePayload)

  /** `Message::try_from(PlainMessage)`. */
  function TryFromPlain(plain: PlainMessage): (r: Result<Message, Error>)
    ensures r.Ok? ==> r.value.version == plain.version && r.value.payload.ContentTypeOf() == plain.typ
    ensures r.Ok? ==> EncodeMessagePayload(r.value.payload, []) == plain.payload.bytes
    ensures r.Err? ==> r.error == CorruptMessagePayload(plain.typ)
  {
    match NewMessagePayload(plain.typ, plain.version, plain.payload)
    case Ok(p) => Ok(Message(plain.version, p))
    case Err(e) => Err(e)
  }

  /** `From<Message> for PlainMessage`: the content type of the payload and its encoding. */
  function FromMessage(msg: Message): (p: PlainMessage)
    ensures p.typ == msg.payload.ContentTypeOf() && p.version == msg.version
    ensures msg.payload.ApplicationData? ==> p.payload == msg.payload.data
    ensures msg.payload.Handshake? ==> p.payload == msg.payload.encoded
  {
    var bytes :=
      match msg.payload
      case ApplicationData(d) => d.bytes
      case _ => EncodeMessagePayload(msg.payload, []);
    PlainMessage(msg.payload.ContentTypeOf(), msg.version, Payload(bytes))
  }

  /** Decoding a plaintext record and turning it back into a plaintext record changes nothing. */
  lemma DecodeThenPlainIsIdentity(plain: PlainMessage)
    requires TryFromPlain(plain).Ok?
    ensures FromMessage(TryFromPlain(plain).value) == plain
  {
  }

  /**
   * The message round trip the fuzzer asserts: read a record, take its
   * plaintext, decode it, turn it back into a record and encode that; the
   * result is the bytes the record was read from.
   */
  lemma {:induction false} MessageRoundTrip(data: seq<Byte>)
    requires ReadOpaque(data).Ok?
    requires TryFromPlain(ToPlainMessage(ReadOpaque(data).value)).Ok?
    ensures
      var m := ReadOpaque(data).value;
      var msg := TryFromPlain(ToPlainMessage(m)).value;
      EncodeOpaque(IntoUnencryptedOpaque(FromMessage(msg))) == data[..m.Len()]
  {
    var m := ReadOpaque(data).value;
    var plain := ToPlainMessage(m);
    DecodeThenPlainIsIdentity(plain);
    assert IntoUnencryptedOpaque(plain) == ToOwned(m);
    assert EncodeOpaque(ToOwned(m)) == EncodeOpaque(m);
    RecordRoundTrip(data);
  }
}
