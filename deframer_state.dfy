/**
 * The state of the message deframer of rustls/src/msgs/deframer.rs as a
 * value, and each of its operations as a function from the state before to
 * the state after. The class `Deframer.MessageDeframer` performs the same
 * steps in place and is proved to agree with these functions; the
 * properties of the deframer are proved about the functions, in module
 * `DeframerProperties`.
 *
 * The buffer is a `Vec<u8>` that is resized, so it is a `seq<Byte>`; `used`
 * is the length of its meaningful prefix. The record layer a `pop` asks to
 * decrypt records is given as the script of answers it will give.
 */
module DeframerState {
  import opened Wrappers
  import opened Codec
  import opened Errors
  import opened Enums
  import opened Base
  import opened Messages
  import opened RecordProtection

  /** Length of a handshake message header: a type byte and a 24-bit length. */
  const HANDSHAKE_HEADER_SIZE: nat := 1 + 3

  /** The largest handshake message body accepted, to bound buffering. */
  const MAX_HANDSHAKE_SIZE: nat := 0xffff

  /** The buffer grows by this much ahead of each read. */
  const READ_SIZE: nat := 4096

  const INTERLEAVED_ERROR: string := ""
  const BUFFER_FULL: string := "message buffer full"
  const UNRELATED_PUSH: string := "cannot push QUIC messages into unrelated connection"

  function Min(a: nat, b: nat): nat { if a <= b then a else b }

  /** A half-open range of buffer offsets; `Len` saturates like `Range::len`. */
  datatype Range = Range(start: nat, end: nat)
  {
    function Len(): nat { if start <= end then end - start else 0 }
  }

  /** The state of a handshake message being joined from several fragments. */
  datatype HandshakePayloadMeta = HandshakePayloadMeta(
    message: Range,              // the records consumed so far
    payload: Range,              // the handshake bytes gathered so far
    version: ProtocolVersion,
    expectedLen: Option<nat>,    // header plus body length, once the header is complete
    quic: bool)                  // fed by `Push` rather than by records

  /** A message handed to the caller (`want_close_before_decrypt` is always false). */
  datatype Deframed = Deframed(
    wantCloseBeforeDecrypt: bool,
    aligned: bool,
    trialDecryptionFinished: bool,
    message: PlainMessage)

  /** Where `Read` takes its bytes from: a chunk of data, or a failing reader. */
  datatype Source =
    | Chunk(data: seq<Byte>)
    | Failing(scribble: seq<Byte>)   // may overwrite the free space before failing

  datatype ReadError = InvalidData(why: string) | Io

  /**
   * `payload_size`: the expected length of a handshake message (its header
   * included) from the first bytes of its payload.
   */
  function PayloadSize(buf: seq<Byte>): (r: Result<Option<nat>, Error>)
    ensures |buf| < HANDSHAKE_HEADER_SIZE ==> r == Ok(None)
    ensures |buf| >= HANDSHAKE_HEADER_SIZE ==>
      (r.Err? <==> FromBigEndian(buf[1..4]) > MAX_HANDSHAKE_SIZE)
    ensures r.Err? ==> r.error == CorruptMessagePayload(ContentType.Handshake)
    ensures r.Ok? && r.value.Some? ==>
      |buf| >= HANDSHAKE_HEADER_SIZE &&
      r.value.value == HANDSHAKE_HEADER_SIZE + FromBigEndian(buf[1..4]) &&
      r.value.value <= HANDSHAKE_HEADER_SIZE + MAX_HANDSHAKE_SIZE
  {
    if |buf| < HANDSHAKE_HEADER_SIZE then Ok(None)
    else
      var len := FromBigEndian(buf[1..4]);
      if len > MAX_HANDSHAKE_SIZE then Err(CorruptMessagePayload(ContentType.Handshake))
      else Ok(Some(HANDSHAKE_HEADER_SIZE + len))
  }

  /** Once the header is complete, more bytes do not change the expected length. */
  lemma PayloadSizeOfPrefix(a: seq<Byte>, b: seq<Byte>)
    requires |a| >= HANDSHAKE_HEADER_SIZE
    ensures PayloadSize(a + b) == PayloadSize(a)
  {
    assert (a + b)[1..4] == a[1..4];
  }

  /** The expected length of a handshake message that starts with its own encoding. */
  lemma {:induction false} PayloadSizeOfEncoding(typ: Byte, body: seq<Byte>, rest: seq<Byte>)
    requires |body| <= MAX_HANDSHAKE_SIZE
    ensures PayloadSize([typ] + EncodeU24(PayloadU24(body), []) + rest) ==
            Ok(Some(HANDSHAKE_HEADER_SIZE + |body|))
  {
    var enc := EncodeU24(PayloadU24(body), []);
    var s := [typ] + enc + rest;
    assert s[1..4] == enc[..3];
  }

  /** The join holds a whole handshake message. */
  predicate Satisfied(m: HandshakePayloadMeta)
  {
    m.expectedLen.Some? && m.expectedLen.value <= m.payload.Len()
  }

  /** What the offsets of a join must respect for the buffer to be indexable. */
  predicate MetaValid(m: HandshakePayloadMeta, used: nat, len: nat)
  {
    && m.payload.start <= m.payload.end <= len
    && (if m.quic then used <= m.payload.end
        else m.message.start == 0 && m.payload.end <= m.message.end <= used)
    && (m.expectedLen.Some? ==>
          HANDSHAKE_HEADER_SIZE <= m.expectedLen.value <= HANDSHAKE_HEADER_SIZE + MAX_HANDSHAKE_SIZE)
  }

  function Zeros(n: nat): (z: seq<Byte>)
    ensures |z| == n && forall i | 0 <= i < n :: z[i] == 0
  {
    if n == 0 then [] else Zeros(n - 1) + [0]
  }

  /** How one pass of the loop in `pop` ends. */
  datatype PopStep =
    | Finished(r: Result<Option<Deframed>, Error>)   // `pop` returns `r`
    | Again                                         // the loop goes round again
    | Complete(expectedLen: nat)                    // the join holds a whole message

  /** An operation's result and the state it leaves. */
  datatype Updated<R> = Updated(r: R, st: State)

  /** One pass of `pop`: how it ends, the state, and the record layer's answers it consumed. */
  datatype Pass = Pass(step: PopStep, st: State, taken: seq<Decryption>)

  /** A whole `pop`: its result, the state, and the record layer's answers it consumed. */
  datatype Popped = Popped(r: Result<Option<Deframed>, Error>, st: State, taken: seq<Decryption>)

  /** The deframer's fields. */
  datatype State = State(
    desynced: bool,     // the peer is not speaking TLS; every later `pop` fails
    buf: seq<Byte>,
    joiningHs: Option<HandshakePayloadMeta>,
    used: nat,
    discard: nat)       // how many bytes the caller should discard after a `pop`
  {
    predicate BufferValid()
    {
      used <= |buf| <= MAX_HANDSHAKE_SIZE
    }

    predicate Valid()
    {
      BufferValid() && (joiningHs.Some? ==> MetaValid(joiningHs.value, used, |buf|))
    }

    /** The handshake bytes gathered but not yet emitted. */
    function Pending(): seq<Byte>
      requires Valid()
    {
      if joiningHs.Some? then buf[joiningHs.value.payload.start..joiningHs.value.payload.end] else []
    }

    /**
     * The join's bookkeeping agrees with its bytes: the expected length is the
     * one the gathered bytes announce, and a QUIC join holds exactly the
     * buffered bytes. A `payload_size` error can leave this broken.
     */
    predicate Consistent()
      requires Valid()
    {
      joiningHs.Some? ==>
        && PayloadSize(Pending()) == Ok(joiningHs.value.expectedLen)
        && (joiningHs.value.quic ==> joiningHs.value.payload.end == used == joiningHs.value.message.end)
    }

    predicate QuicJoin()
    {
      joiningHs.Some? && joiningHs.value.quic
    }

    /** The ceiling on buffered bytes: 64 KiB while joining a handshake message, else one record. */
    function AllowMax(): nat
    {
      if joiningHs.Some? then MAX_HANDSHAKE_SIZE else MAX_WIRE_SIZE
    }

    /** `prepare_read`: make room for a 4 KiB read, within the ceiling. */
    function PrepareRead(): (u: Updated<Result<(), string>>)
      requires Valid()
      ensures u.st.Valid() && u.st == this.(buf := u.st.buf)
    {
      if used >= AllowMax() then Updated(Err(BUFFER_FULL), this)
      else
        var need := Min(AllowMax(), used + READ_SIZE);
        if need > |buf| then Updated(Ok(()), this.(buf := buf + Zeros(need - |buf|)))
        else if |buf| > AllowMax() then Updated(Ok(()), this.(buf := buf[..need]))
        else Updated(Ok(()), this)
    }

    /**
     * `read`: prepare the buffer, then let the source fill the free space
     * after `used`; a failing source leaves `used` as it was.
     */
    function Read(rd: Source): (u: Updated<Result<nat, ReadError>>)
      requires Valid() && !QuicJoin()
      ensures u.st.Valid()
    {
      var prepared := PrepareRead();
      if prepared.r.Err? then Updated(Err(InvalidData(prepared.r.error)), prepared.st)
      else
        var p := prepared.st;
        var room := |p.buf| - p.used;
        match rd
        case Chunk(data) =>
          var n := Min(|data|, room);
          Updated(Ok(n), p.(buf := p.buf[..p.used] + data[..n] + p.buf[p.used + n..], used := p.used + n))
        case Failing(scribble) =>
          var n := Min(|scribble|, room);
          Updated(Err(Io), p.(buf := p.buf[..p.used] + scribble[..n] + p.buf[p.used + n..]))
    }

    /** `discard`: drop the first `taken` buffered bytes, moving the rest to the front. */
    function Discard(taken: nat): (s: State)
      requires BufferValid()
      ensures s.BufferValid() && |s.buf| == |buf|
      ensures s == this.(buf := s.buf, used := s.used)
    {
      if taken < used then this.(buf := buf[taken..used] + buf[used - taken..], used := used - taken)
      else if taken == used then this.(used := 0)
      else this
    }

    /** The bytes `payload` fit in the buffer `prepare_read` leaves (the source panics otherwise). */
    predicate PushFits(payload: seq<Byte>)
      requires Valid()
    {
      var prepared := PrepareRead();
      || (used > 0 && joiningHs.None?)
      || prepared.r.Err?
      || (if joiningHs.Some? then joiningHs.value.payload.end + |payload| <= |prepared.st.buf|
          else PayloadSize(payload).Ok? ==> |payload| <= |prepared.st.buf|)
    }

    /**
     * The bytes pushed into a QUIC join, written after the join's bytes; the
     * join then covers them (`used` is moved by the caller).
     */
    function AppendToJoin(payload: seq<Byte>): (s: State)
      requires Valid() && joiningHs.Some? && joiningHs.value.quic
      requires joiningHs.value.payload.end + |payload| <= |buf|
      ensures s.Valid() && |s.buf| == |buf| && s == this.(buf := s.buf, joiningHs := s.joiningHs)
      ensures s.joiningHs == Some(joiningHs.value.(message := Range(joiningHs.value.message.start, used + |payload|),
                                                   payload := Range(joiningHs.value.payload.start, joiningHs.value.payload.end + |payload|)))
    {
      var meta := joiningHs.value;
      var buf' := buf[..meta.payload.end] + payload + buf[meta.payload.end + |payload|..];
      this.(buf := buf', joiningHs := Some(meta.(message := Range(meta.message.start, used + |payload|),
                                                 payload := Range(meta.payload.start, meta.payload.end + |payload|))))
    }

    /** The part of `push` that appends the bytes to a QUIC join, once the buffer is prepared. */
    function PushJoin(payload: seq<Byte>): (u: Updated<Result<(), Error>>)
      requires Valid() && joiningHs.Some? && joiningHs.value.quic
      requires joiningHs.value.payload.end + |payload| <= |buf|
      ensures u.st.Valid() && u.st.desynced == desynced && u.st.discard == discard
    {
      var appended := AppendToJoin(payload);
      var meta' := appended.joiningHs.value;
      var end := used + |payload|;
      if meta'.expectedLen.None? then
        var size := PayloadSize(appended.Pending());
        if size.Err? then Updated(Err(size.error), appended)
        else Updated(Ok(()), appended.(joiningHs := Some(meta'.(expectedLen := size.value)), used := end))
      else Updated(Ok(()), appended.(used := end))
    }

    /** `push`: append a handshake payload delivered by QUIC's own framing. */
    function Push(version: ProtocolVersion, payload: seq<Byte>): (u: Updated<Result<(), Error>>)
      requires Valid() && (joiningHs.Some? ==> joiningHs.value.quic) && PushFits(payload)
      ensures u.st.Valid() && u.st.desynced == desynced && u.st.discard == discard
    {
      if used > 0 && joiningHs.None? then Updated(Err(General(UNRELATED_PUSH)), this)
      else
        var prepared := PrepareRead();
        if prepared.r.Err? then Updated(Err(General(prepared.r.error)), prepared.st)
        else
          var p := prepared.st;
          var end := p.used + |payload|;
          if p.joiningHs.Some? then p.PushJoin(payload)
          else
            var size := PayloadSize(payload);
            if size.Err? then Updated(Err(size.error), p)
            else
              Updated(Ok(()), p.(buf := payload + p.buf[|payload|..], used := end,
                                 joiningHs := Some(HandshakePayloadMeta(Range(0, end), Range(0, |payload|), version, size.value, true))))
    }

    /** Where the next record starts: after the records a join has consumed. */
    function RecordStart(): nat
    {
      if joiningHs.Some? then joiningHs.value.message.end else 0
    }

    /**
     * The bytes of the next record and beyond, up to `used`, when `pop`
     * parses them (that is, unless a join is satisfied or fed by QUIC).
     */
    function NextRecord(): seq<Byte>
      requires Valid() && !QuicJoin()
    {
      buf[RecordStart()..used]
    }

    /**
     * The `copy_within` of a fragment of `n` bytes at `start + 5` down to the
     * end of the join, which then covers the record up to `end`.
     */
    function MoveFragment(start: nat, end: nat, n: nat): (s: State)
      requires Valid() && !QuicJoin() && start == RecordStart() && joiningHs.Some?
      requires start + HEADER_SIZE + n <= end <= used
      ensures s.Valid() && |s.buf| == |buf| && s == this.(buf := s.buf, joiningHs := s.joiningHs)
      ensures s.joiningHs == Some(joiningHs.value.(message := Range(joiningHs.value.message.start, end),
                                                   payload := Range(joiningHs.value.payload.start, joiningHs.value.payload.end + n)))
    {
      var meta := joiningHs.value;
      var payloadStart := start + HEADER_SIZE;
      var buf' := buf[..meta.payload.end] + buf[payloadStart..payloadStart + n] + buf[meta.payload.end + n..];
      this.(buf := buf', joiningHs := Some(meta.(message := Range(meta.message.start, end),
                                                 payload := Range(meta.payload.start, meta.payload.end + n))))
    }

    /**
     * The part of `pop` that adds a decrypted handshake fragment, already in
     * place at `start + 5`, to the join, starting one if there is none.
     */
    function Fold(start: nat, end: nat, pt: PlainMessage): (u: Updated<Result<(), Error>>)
      requires Valid() && !QuicJoin() && start == RecordStart()
      requires start + HEADER_SIZE + |pt.payload.bytes| <= end <= used
      ensures u.st.Valid() && |u.st.buf| == |buf|
      ensures u.st == this.(buf := u.st.buf, joiningHs := u.st.joiningHs)
      ensures u.r.Ok? ==> u.st.joiningHs.Some? && !u.st.joiningHs.value.quic
    {
      var payloadStart := start + HEADER_SIZE;
      var n := |pt.payload.bytes|;
      if joiningHs.Some? then
        var moved := MoveFragment(start, end, n);
        var meta' := moved.joiningHs.value;
        if meta'.expectedLen.None? then
          var size := PayloadSize(moved.Pending());
          if size.Err? then Updated(Err(size.error), moved)
          else Updated(Ok(()), moved.(joiningHs := Some(meta'.(expectedLen := size.value))))
        else Updated(Ok(()), moved)
      else
        var size := PayloadSize(buf[payloadStart..payloadStart + n]);
        if size.Err? then Updated(Err(size.error), this)
        else
          Updated(Ok(()), this.(joiningHs :=
            Some(HandshakePayloadMeta(Range(0, end), Range(payloadStart, payloadStart + n), pt.version, size.value, false))))
    }

    /** The record at `start` decrypted in place: its plaintext `msg` overwrites the payload. */
    function WritePlaintext(start: nat, msg: PlainMessage): (s: State)
      requires start + HEADER_SIZE + |msg.payload.bytes| <= |buf|
      ensures |s.buf| == |buf| && s == this.(buf := s.buf)
    {
      var payloadStart := start + HEADER_SIZE;
      this.(buf := buf[..payloadStart] + msg.payload.bytes + buf[payloadStart + |msg.payload.bytes|..])
    }

    /**
     * The part of `pop` after a record decrypts: the plaintext `msg` is
     * written over the record's payload, then returned, refused as
     * interleaved, or folded into the join.
     */
    function Place(start: nat, end: nat, msg: PlainMessage): (u: Updated<PopStep>)
      requires Valid() && !QuicJoin() && start == RecordStart()
      requires start + HEADER_SIZE + |msg.payload.bytes| <= end <= used
      ensures u.st.Valid() && |u.st.buf| == |buf| && u.st.used == used
      ensures u.r.Again? ==> u.st.desynced == desynced
      ensures u.r.Complete? ==>
        u.st.joiningHs.Some? && u.st.joiningHs.value.expectedLen == Some(u.r.expectedLen) &&
        u.r.expectedLen <= u.st.joiningHs.value.payload.Len()
    {
      var placed := WritePlaintext(start, msg);
      if joiningHs.Some? && msg.typ != ContentType.Handshake then
        Updated(Finished(Err(PeerMisbehavedError(INTERLEAVED_ERROR))), placed.(desynced := true))
      else if msg.typ != ContentType.Handshake then
        Updated(Finished(Ok(Some(Deframed(false, true, false, msg)))), placed.(discard := end))
      else
        var folded := placed.Fold(start, end, msg);
        folded.st.Gathered(folded.r)
    }

    /**
     * What a pass yields once a fragment is folded in with outcome `r`: the
     * error, a complete message, another pass over a further buffered
     * record, or a wait for more bytes.
     */
    function Gathered(r: Result<(), Error>): (u: Updated<PopStep>)
      requires Valid() && (r.Ok? ==> joiningHs.Some?)
      ensures u.st == this
      ensures u.r.Finished? ==> u.r.r == (if r.Err? then Err(r.error) else Ok(None))
      ensures u.r.Again? ==> r.Ok? && used > joiningHs.value.message.end
      ensures u.r.Complete? ==>
        r.Ok? && joiningHs.value.expectedLen == Some(u.r.expectedLen) && u.r.expectedLen <= joiningHs.value.payload.Len()
    {
      if r.Err? then Updated(Finished(Err(r.error)), this)
      else
        var meta := joiningHs.value;
        if Satisfied(meta) then Updated(Complete(meta.expectedLen.value), this)
        else if used > meta.message.end then Updated(Again, this)
        else Updated(Finished(Ok(None)), this)
    }

    /**
     * One pass of the loop in `pop`: either the join in progress is complete,
     * or the next record is parsed, decrypted by the first answer of
     * `script` and handled.
     */
    function PopPass(script: seq<Decryption>): (p: Pass)
      requires Valid() && !desynced && used > 0
      ensures p.st.Valid() && p.st.used == used && |p.st.buf| == |buf|
      ensures |p.taken| <= 1 && |p.taken| <= |script| && p.taken == script[..|p.taken|]
      ensures p.step.Again? ==> p.taken != [] && !p.st.desynced
      ensures p.step.Complete? ==>
        p.st.joiningHs.Some? && p.st.joiningHs.value.expectedLen == Some(p.step.expectedLen) &&
        p.step.expectedLen <= p.st.joiningHs.value.payload.Len()
    {
      if joiningHs.Some? && Satisfied(joiningHs.value) then Pass(Complete(joiningHs.value.expectedLen.value), this, [])
      else if QuicJoin() then Pass(Finished(Ok(None)), this, [])
      else
        var start := RecordStart();
        var rec := ReadOpaque(buf[start..used]);
        if rec.Err? then
          if rec.error == TooShortForHeader || rec.error == TooShortForLength then Pass(Finished(Ok(None)), this, [])
          else Pass(Finished(Err(CorruptMessage)), this.(desynced := true), [])
        else PopRecord(start, rec.value, script)
    }

    /**
     * The part of a pass after a whole record `m` is parsed at `start`: a
     * ChangeCipherSpec record is returned as it is, any other is decrypted
     * by the first answer of `script` and handled.
     */
    function PopRecord(start: nat, m: OpaqueMessage, script: seq<Decryption>): (p: Pass)
      requires Valid() && !QuicJoin() && start == RecordStart() && start + m.Len() <= used
      ensures p.st.Valid() && p.st.used == used && |p.st.buf| == |buf|
      ensures |p.taken| <= 1 && |p.taken| <= |script| && p.taken == script[..|p.taken|]
      ensures p.step.Again? ==> p.taken != [] && p.st.desynced == desynced
      ensures p.step.Complete? ==>
        p.st.joiningHs.Some? && p.st.joiningHs.value.expectedLen == Some(p.step.expectedLen) &&
        p.step.expectedLen <= p.st.joiningHs.value.payload.Len()
    {
      var end := start + m.Len();
      if m.typ == ContentType.ChangeCipherSpec && joiningHs.None? then
        Pass(Finished(Ok(Some(Deframed(false, true, false, ToPlainMessage(m))))), this.(discard := end), [])
      else
        var dec := Respond(script, m);
        var taken := if script == [] then [] else [script[0]];
        if dec.Failed? then Pass(Finished(Err(dec.error)), this, taken)
        else if dec.Rejected? then
          if joiningHs.Some? then Pass(Finished(Err(PeerMisbehavedError(INTERLEAVED_ERROR))), this.(desynced := true), taken)
          else Skipped(end, taken)
        else Placed(start, end, dec.plaintext, [script[0]])
    }

    /**
     * A record ending at `end`, rejected by trial decryption with no join in
     * progress, is skipped: `pop` returns nothing and marks the record for
     * discarding, so the next `pop` starts at the record after it.
     */
    function Skipped(end: nat, taken: seq<Decryption>): (p: Pass)
      ensures p.step == Finished(Ok(None)) && p.taken == taken
      ensures p.st == this.(discard := end)
    {
      Pass(Finished(Ok(None)), this.(discard := end), taken)
    }

    /**
     * The same rejection as the source writes it: the loop goes round again,
     * but the discard is only noted, so the next pass starts at offset 0 again.
     */
    function SkippedAsWritten(end: nat, taken: seq<Decryption>): (p: Pass)
      ensures p.taken == taken && p.st == this.(discard := end)
    {
      Pass(Again, this.(discard := end), taken)
    }

    /** A pass whose record, decrypted from answers `taken`, is placed as `msg`. */
    function Placed(start: nat, end: nat, msg: PlainMessage, taken: seq<Decryption>): (p: Pass)
      requires Valid() && !QuicJoin() && start == RecordStart()
      requires start + HEADER_SIZE + |msg.payload.bytes| <= end <= used
      ensures p.taken == taken && p.st.Valid()
    {
      var placed := Place(start, end, msg);
      Pass(placed.r, placed.st, taken)
    }

    /**
     * The end of `pop`: cut the completed handshake message off the join,
     * then either move the join past it or, when nothing remains, end the
     * join and mark the consumed records for discarding.
     */
    function Emit(expectedLen: nat): (u: Updated<Result<Option<Deframed>, Error>>)
      requires Valid() && joiningHs.Some? && expectedLen <= joiningHs.value.payload.Len()
      ensures u.st.Valid() && u.st == this.(joiningHs := u.st.joiningHs, discard := u.st.discard)
    {
      var meta := joiningHs.value;
      var stop := meta.payload.start + expectedLen;
      var message := PlainMessage(ContentType.Handshake, meta.version, Payload(buf[meta.payload.start..stop]));
      if meta.payload.Len() > expectedLen then
        var meta' := meta.(payload := Range(stop, meta.payload.end));
        var size := PayloadSize(buf[stop..meta.payload.end]);
        if size.Err? then Updated(Err(size.error), this.(joiningHs := Some(meta')))
        else Updated(Ok(Some(Deframed(false, false, true, message))), this.(joiningHs := Some(meta'.(expectedLen := size.value))))
      else
        Updated(Ok(Some(Deframed(false, true, true, message))), this.(joiningHs := None, discard := meta.message.end))
    }

    /** The loop of `pop` and what follows it, from a pass onwards. */
    function PopLoop(script: seq<Decryption>): (p: Popped)
      requires Valid() && !desynced && used > 0
      ensures p.st.Valid() && p.st.used == used && |p.st.buf| == |buf|
      ensures |p.taken| <= |script| && p.taken == script[..|p.taken|]
      decreases |script|
    {
      var pass := PopPass(script);
      match pass.step
      case Finished(r) => Popped(r, pass.st, pass.taken)
      case Complete(n) =>
        var e := pass.st.Emit(n);
        Popped(e.r, e.st, pass.taken)
      case Again =>
        var rest := pass.st.PopLoop(script[|pass.taken|..]);
        Popped(rest.r, rest.st, pass.taken + rest.taken)
    }

    /**
     * One pass of the loop as the source writes it: a record rejected by
     * trial decryption with no join in progress goes round again
     * (`SkippedAsWritten`); every other pass is `PopPass`.
     */
    function PopPassAsWritten(script: seq<Decryption>): (p: Pass)
      requires Valid() && !desynced && used > 0
      ensures p.st.Valid() && p.st.used == used && |p.st.buf| == |buf|
      ensures |p.taken| <= 1 && |p.taken| <= |script| && p.taken == script[..|p.taken|]
      ensures p.step.Again? ==> p.taken != [] && !p.st.desynced
    {
      var rec := ReadOpaque(buf[..used]);
      if joiningHs.None? && rec.Ok? && rec.value.typ != ContentType.ChangeCipherSpec && Respond(script, rec.value).Rejected? then
        SkippedAsWritten(rec.value.Len(), [script[0]])
      else PopPass(script)
    }

    /** The loop of `pop` as the source writes it, from a pass onwards. */
    function PopLoopAsWritten(script: seq<Decryption>): (p: Popped)
      requires Valid() && !desynced && used > 0
      ensures p.st.Valid() && p.st.used == used && |p.st.buf| == |buf|
      ensures |p.taken| <= |script| && p.taken == script[..|p.taken|]
      decreases |script|
    {
      var pass := PopPassAsWritten(script);
      match pass.step
      case Finished(r) => Popped(r, pass.st, pass.taken)
      case Complete(n) =>
        var e := pass.st.Emit(n);
        Popped(e.r, e.st, pass.taken)
      case Again =>
        var rest := pass.st.PopLoopAsWritten(script[|pass.taken|..]);
        Popped(rest.r, rest.st, pass.taken + rest.taken)
    }

    /**
     * `pop`: the next whole message the buffered bytes hold, asking the
     * record layer, whose answers are `script`, to decrypt records as needed.
     */
    function Pop(script: seq<Decryption>): (p: Popped)
      requires Valid()
      ensures p.st.Valid() && p.st.used == used && |p.st.buf| == |buf|
      ensures |p.taken| <= |script| && p.taken == script[..|p.taken|]
    {
      if desynced then Popped(Err(CorruptMessage), this, [])
      else if used == 0 then Popped(Ok(None), this, [])
      else PopLoop(script)
    }
  }
}
