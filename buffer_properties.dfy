/**
 * What the deframer's buffer management promises, proved about the
 * functions of `DeframerState`: `prepare_read` makes room within the
 * ceiling, `read` appends what it reads, `discard` drops a prefix, and
 * `push` appends QUIC handshake bytes to the join.
 */
module BufferProperties {
  import opened Wrappers
  import opened Errors
  import opened Codec
  import opened Messages
  import opened Enums
  import opened DeframerState
  import opened DeframerProperties

  function Max(a: nat, b: nat): nat { if a >= b then a else b }

  /**
   * `prepare_read` refuses exactly when the ceiling is reached; otherwise it
   * keeps the buffered bytes and leaves room for a read of up to 4 KiB,
   * shrinking a buffer that grew past the ceiling.
   */
  lemma PrepareReadRoom(st: State)
    requires st.Valid()
    ensures var u := st.PrepareRead();
      && (u.r.Err? <==> st.used >= st.AllowMax())
      && (u.r.Err? ==> u.r.error == BUFFER_FULL && u.st == st)
      && (u.r.Ok? ==>
            && u.st.buf[..st.used] == st.buf[..st.used]
            && |u.st.buf| >= Min(st.AllowMax(), st.used + READ_SIZE) > st.used
            && (|st.buf| > st.AllowMax() || |st.buf| < st.used + READ_SIZE ==>
                  |u.st.buf| == Min(st.AllowMax(), st.used + READ_SIZE))
            && |u.st.buf| <= Max(|st.buf|, st.used + READ_SIZE))
  {
  }

  /**
   * `read` appends to the buffered bytes as many of the source's bytes as
   * fit, at least one when there are any; a full buffer is an error, and a
   * failing source adds nothing.
   */
  lemma ReadAppends(st: State, rd: Source)
    requires st.Valid() && !st.QuicJoin()
    ensures var u := st.Read(rd);
      && u.st.joiningHs == st.joiningHs && u.st.desynced == st.desynced && u.st.discard == st.discard
      && (u.r == Err(InvalidData(BUFFER_FULL)) <==> st.used >= st.AllowMax())
      && (u.r.Ok? ==>
            && rd.Chunk? && u.r.value <= |rd.data| && (rd.data != [] ==> u.r.value > 0)
            && u.st.used == st.used + u.r.value <= st.AllowMax()
            && u.st.buf[..u.st.used] == st.buf[..st.used] + rd.data[..u.r.value])
      && (u.r.Err? ==> u.st.used == st.used && u.st.buf[..st.used] == st.buf[..st.used])
  {
    PrepareReadRoom(st);
    var p := st.PrepareRead().st;
    if p.used < |p.buf| && st.used < st.AllowMax() {
      var bytes := match rd case Chunk(data) => data case Failing(scribble) => scribble;
      var n := Min(|bytes|, |p.buf| - p.used);
      WriteAt(p.buf, p.used, bytes[..n], 0, p.used);
    }
  }

  /** `read` leaves the bytes of a join in progress as they were. */
  lemma ReadKeepsJoin(st: State, rd: Source)
    requires st.Valid() && !st.QuicJoin() && st.joiningHs.Some?
    ensures st.Read(rd).st.Pending() == st.Pending()
  {
    PrepareReadRoom(st);
    var p := st.PrepareRead().st;
    var meta := st.joiningHs.value;
    if p.used < |p.buf| && st.used < st.AllowMax() {
      var bytes := match rd case Chunk(data) => data case Failing(scribble) => scribble;
      var n := Min(|bytes|, |p.buf| - p.used);
      WriteAt(p.buf, p.used, bytes[..n], meta.payload.start, meta.payload.end);
    }
  }

  /** `discard` drops the first `taken` buffered bytes and keeps the rest, in order. */
  lemma DiscardShifts(st: State, taken: nat)
    requires st.BufferValid()
    ensures var s := st.Discard(taken);
      && (taken <= st.used ==> s.used == st.used - taken && s.buf[..s.used] == st.buf[taken..st.used])
      && (taken > st.used ==> s == st)
  {
  }

  /**
   * `push` refuses bytes for a connection that buffers records, and bytes
   * that would take the buffer past its ceiling; a refusal adds nothing.
   */
  lemma PushRefuses(st: State, version: ProtocolVersion, payload: seq<Byte>)
    requires st.Valid() && (st.joiningHs.Some? ==> st.joiningHs.value.quic) && st.PushFits(payload)
    ensures var u := st.Push(version, payload);
      && (u.r == Err(General(UNRELATED_PUSH)) <==> st.used > 0 && st.joiningHs.None?)
      && (u.r == Err(General(BUFFER_FULL)) <==> !(st.used > 0 && st.joiningHs.None?) && st.used >= st.AllowMax())
      && (u.r.Err? ==> u.st.used == st.used)
      && (u.r.Ok? ==> u.st.QuicJoin() && u.st.used == st.used + |payload|)
  {
    PrepareReadRoom(st);
  }

  /** `push` into a QUIC join appends the bytes to the join, consistently. */
  lemma PushIntoJoin(st: State, version: ProtocolVersion, payload: seq<Byte>)
    requires st.Valid() && st.QuicJoin() && st.PushFits(payload)
    ensures var u := st.Push(version, payload);
      u.r.Ok? ==>
        && u.st.Pending() == st.Pending() + payload
        && u.st.joiningHs.value.version == st.joiningHs.value.version
        && (st.Consistent() ==> u.st.Consistent())
  {
    var prepared := st.PrepareRead();
    PrepareReadRoom(st);
    if prepared.r.Ok? {
      var p := prepared.st;
      assert p.Pending() == st.Pending();
      PushJoinAppends(p, payload);
    }
  }

  /** Once the buffer is prepared, the bytes pushed into a QUIC join extend its bytes. */
  lemma PushJoinAppends(st: State, payload: seq<Byte>)
    requires st.Valid() && st.joiningHs.Some? && st.joiningHs.value.quic
    requires st.joiningHs.value.payload.end + |payload| <= |st.buf|
    ensures var u := st.PushJoin(payload);
      u.r.Ok? ==>
        && u.st.Pending() == st.Pending() + payload
        && u.st.joiningHs.value.version == st.joiningHs.value.version
        && (st.Consistent() ==> u.st.Consistent())
  {
    var meta := st.joiningHs.value;
    WriteAt(st.buf, meta.payload.end, payload, meta.payload.start, meta.payload.end);
    var appended := st.AppendToJoin(payload);
    assert appended.Pending() == st.Pending() + payload;
    if meta.expectedLen.Some? && st.Consistent() {
      PayloadSizeOfPrefix(st.Pending(), payload);
    }
  }

  /** `push` into an empty deframer starts a QUIC join holding exactly the bytes. */
  lemma PushStartsJoin(st: State, version: ProtocolVersion, payload: seq<Byte>)
    requires st.Valid() && st.joiningHs.None? && st.used == 0 && st.PushFits(payload)
    ensures var u := st.Push(version, payload);
      && (u.r.Err? ==> u.r.error == CorruptMessagePayload(ContentType.Handshake) && u.st.joiningHs.None?)
      && (u.r.Ok? ==>
            && u.st.Pending() == payload && u.st.joiningHs.value.version == version
            && u.st.Consistent())
  {
    PrepareReadRoom(st);
  }

  /** A read of `data` outside a join, into a buffer that holds nothing beyond its buffered bytes. */
  lemma ReadFresh(st: State, data: seq<Byte>)
    requires st.Valid() && st.joiningHs.None? && |st.buf| == st.used < MAX_WIRE_SIZE
    requires |data| >= READ_SIZE
    ensures var u := st.Read(Chunk(data));
      var n := Min(READ_SIZE, MAX_WIRE_SIZE - st.used);
      && u.r == Ok(n) && u.st.used == st.used + n && |u.st.buf| == u.st.used
      && u.st.Valid() && u.st.joiningHs.None?
  {
  }

  /**
   * Outside a join, the buffer holds at most one record of the largest size:
   * reading a 16 KiB record from a fresh deframer takes four reads of 4 KiB
   * and one of 2053 bytes, and a further read is refused.
   */
  lemma LimitedBuffer(message: seq<Byte>)
    requires |message| == HEADER_SIZE + 16384
    ensures var s0 := State(false, [], None, 0, 0);
      var r1 := s0.Read(Chunk(message));
      var r2 := r1.st.Read(Chunk(message));
      var r3 := r2.st.Read(Chunk(message));
      var r4 := r3.st.Read(Chunk(message));
      var r5 := r4.st.Read(Chunk(message));
      var r6 := r5.st.Read(Chunk(message));
      && r1.r == Ok(4096) && r2.r == Ok(4096) && r3.r == Ok(4096) && r4.r == Ok(4096)
      && r5.r == Ok(MAX_WIRE_SIZE - 16384) && r6.r == Err(InvalidData(BUFFER_FULL))
  {
    var s0 := State(false, [], None, 0, 0);
    ReadFresh(s0, message);
    var r1 := s0.Read(Chunk(message));
    ReadFresh(r1.st, message);
    var r2 := r1.st.Read(Chunk(message));
    ReadFresh(r2.st, message);
    var r3 := r2.st.Read(Chunk(message));
    ReadFresh(r3.st, message);
    var r4 := r3.st.Read(Chunk(message));
    ReadFresh(r4.st, message);
  }
}
