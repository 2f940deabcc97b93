/**
 * What the message deframer promises, proved about the functions of
 * `DeframerState`: buffer management (`prepare_read`, `read`, `discard`,
 * `push`) and the behaviour of `pop` over any script of record-layer
 * answers.
 */
module DeframerProperties {
  import opened Wrappers
  import opened Codec
  import opened Errors
  import opened Enums
  import opened Base
  import opened Messages
  import opened RecordProtection
  import opened DeframerState

  // The answers of the record layer, read as a history.

  predicate IsHandshake(d: Decryption)
  {
    d.Decrypted? && d.plaintext.typ == ContentType.Handshake
  }

  /** The handshake bytes of the decrypted handshake records among `answers`, in order. */
  function HandshakeBytes(answers: seq<Decryption>): seq<Byte>
  {
    if answers == [] then []
    else
      var last := answers[|answers| - 1];
      HandshakeBytes(answers[..|answers| - 1]) + (if IsHandshake(last) then last.plaintext.payload.bytes else [])
  }

  /** The version of the first decrypted handshake record among `answers`. */
  function FirstHandshakeVersion(answers: seq<Decryption>): Option<ProtocolVersion>
  {
    if answers == [] then None
    else
      var init := FirstHandshakeVersion(answers[..|answers| - 1]);
      var last := answers[|answers| - 1];
      if init.Some? then init else if IsHandshake(last) then Some(last.plaintext.version) else None
  }

  /** The version a join carries: the one it started with, or the first handshake record's. */
  function JoinVersion(join: Option<HandshakePayloadMeta>, answers: seq<Decryption>): Option<ProtocolVersion>
  {
    if join.Some? then Some(join.value.version) else FirstHandshakeVersion(answers)
  }

  lemma HandshakeBytesOfOne(d: Decryption)
    ensures HandshakeBytes([d]) == if IsHandshake(d) then d.plaintext.payload.bytes else []
    ensures FirstHandshakeVersion([d]) == if IsHandshake(d) then Some(d.plaintext.version) else None
  {
    assert [d][..0] == [];
  }

  lemma HandshakeBytesAppend(a: seq<Decryption>, b: seq<Decryption>)
    ensures HandshakeBytes(a + b) == HandshakeBytes(a) + HandshakeBytes(b)
    ensures FirstHandshakeVersion(a + b) ==
      if FirstHandshakeVersion(a).Some? then FirstHandshakeVersion(a) else FirstHandshakeVersion(b)
  {
    BytesAppend(a, b);
    VersionAppend(a, b);
  }

  lemma {:induction false} BytesAppend(a: seq<Decryption>, b: seq<Decryption>)
    ensures HandshakeBytes(a + b) == HandshakeBytes(a) + HandshakeBytes(b)
    decreases |b|
  {
    if b == [] {
      assert a + b == a;
    } else {
      var init := b[..|b| - 1];
      assert (a + b)[..|a + b| - 1] == a + init;
      assert (a + b)[|a + b| - 1] == b[|b| - 1];
      BytesAppend(a, init);
    }
  }

  lemma {:induction false} VersionAppend(a: seq<Decryption>, b: seq<Decryption>)
    ensures FirstHandshakeVersion(a + b) ==
      if FirstHandshakeVersion(a).Some? then FirstHandshakeVersion(a) else FirstHandshakeVersion(b)
    decreases |b|
  {
    if b == [] {
      assert a + b == a;
    } else {
      var init := b[..|b| - 1];
      assert (a + b)[..|a + b| - 1] == a + init;
      assert (a + b)[|a + b| - 1] == b[|b| - 1];
      VersionAppend(a, init);
    }
  }

  predicate Interleaves(d: Decryption)
  {
    d.Rejected? || (d.Decrypted? && d.plaintext.typ != ContentType.Handshake)
  }

  /** The bytes of the handshake message a `pop` result completes, if any. */
  function EmittedHandshake(r: Result<Option<Deframed>, Error>): seq<Byte>
  {
    if r.Ok? && r.value.Some? && r.value.value.trialDecryptionFinished then r.value.value.message.payload.bytes else []
  }

  /**
   * A message `pop` returns from one record, without joining: a
   * ChangeCipherSpec record as it is, or the plaintext the record decrypts to.
   */
  predicate SingleRecord(rec: Result<OpaqueMessage, MessageError>, d: Deframed, taken: seq<Decryption>, discard: nat)
  {
    && rec.Ok? && d.aligned && !d.wantCloseBeforeDecrypt && !d.trialDecryptionFinished && discard == rec.value.Len()
    && ((taken == [] && d.message == ToPlainMessage(rec.value) && rec.value.typ == ContentType.ChangeCipherSpec) ||
        (taken == [Decrypted(d.message)] && d.message.typ != ContentType.Handshake &&
         |d.message.payload.bytes| <= |rec.value.payload.AsRef()|))
  }

  // One pass of `pop`, piece by piece.

  /** Moving `n` bytes from `from` down to `to`, as `copy_within` does, extends the range ending at `to`. */
  lemma MoveDown(b: seq<Byte>, lo: nat, to: nat, from: nat, n: nat)
    requires lo <= to <= from && from + n <= |b|
    ensures var b' := b[..to] + b[from..from + n] + b[to + n..];
      |b'| == |b| && b'[lo..to + n] == b[lo..to] + b[from..from + n]
  {
  }

  /** Writing `x` at `at` leaves the bytes before `at` and puts `x` there. */
  lemma WriteAt(b: seq<Byte>, at: nat, x: seq<Byte>, lo: nat, hi: nat)
    requires at + |x| <= |b| && lo <= hi <= at
    ensures var b' := b[..at] + x + b[at + |x|..];
      |b'| == |b| && b'[lo..hi] == b[lo..hi] && b'[at..at + |x|] == x
  {
  }

  /** Folding a fragment into a join in progress appends it to the join's bytes. */
  lemma FoldIntoJoin(st: State, start: nat, end: nat, pt: PlainMessage)
    requires st.Valid() && !st.QuicJoin() && start == st.RecordStart() && st.joiningHs.Some?
    requires start + HEADER_SIZE + |pt.payload.bytes| <= end <= st.used
    requires st.buf[start + HEADER_SIZE..start + HEADER_SIZE + |pt.payload.bytes|] == pt.payload.bytes
    ensures var u := st.Fold(start, end, pt);
      && (u.r.Err? ==> u.r.error == CorruptMessagePayload(ContentType.Handshake))
      && u.st.joiningHs.Some? && !u.st.joiningHs.value.quic && u.st.joiningHs.value.message.end == end
      && u.st.joiningHs.value.version == st.joiningHs.value.version
      && u.st.Pending() == st.Pending() + pt.payload.bytes
      && (u.r.Ok? && st.Consistent() ==> u.st.Consistent())
  {
    var moved := st.MoveFragment(start, end, |pt.payload.bytes|);
    MovedPending(st, start, end, |pt.payload.bytes|);
    if st.joiningHs.value.expectedLen.None? {
      var size := PayloadSize(moved.Pending());
      if size.Ok? {
        var sized := moved.(joiningHs := Some(moved.joiningHs.value.(expectedLen := size.value)));
        assert st.Fold(start, end, pt) == Updated(Ok(()), sized);
        assert sized.Pending() == moved.Pending();
      }
    } else if st.Consistent() {
      PayloadSizeOfPrefix(st.Pending(), pt.payload.bytes);
    }
  }

  /** The fragment moved down extends the join's bytes. */
  lemma MovedPending(st: State, start: nat, end: nat, n: nat)
    requires st.Valid() && !st.QuicJoin() && start == st.RecordStart() && st.joiningHs.Some?
    requires start + HEADER_SIZE + n <= end <= st.used
    ensures st.MoveFragment(start, end, n).Pending() == st.Pending() + st.buf[start + HEADER_SIZE..start + HEADER_SIZE + n]
  {
    var meta := st.joiningHs.value;
    MoveDown(st.buf, meta.payload.start, meta.payload.end, start + HEADER_SIZE, n);
    var s := st.MoveFragment(start, end, n);
    assert s.buf == st.buf[..meta.payload.end] + st.buf[start + HEADER_SIZE..start + HEADER_SIZE + n] + st.buf[meta.payload.end + n..];
    assert s.Pending() == s.buf[meta.payload.start..meta.payload.end + n];
  }

  /** Folding a fragment with no join in progress starts one holding the fragment. */
  lemma FoldStartsJoin(st: State, start: nat, end: nat, pt: PlainMessage)
    requires st.Valid() && start == 0 && st.joiningHs.None?
    requires start + HEADER_SIZE + |pt.payload.bytes| <= end <= st.used
    requires st.buf[start + HEADER_SIZE..start + HEADER_SIZE + |pt.payload.bytes|] == pt.payload.bytes
    ensures var u := st.Fold(start, end, pt);
      && (u.r.Err? ==> u.r.error == CorruptMessagePayload(ContentType.Handshake) && u.st == st)
      && (u.r.Ok? ==>
            && u.st.joiningHs.Some? && !u.st.joiningHs.value.quic && u.st.joiningHs.value.message.end == end
            && u.st.joiningHs.value.version == pt.version
            && u.st.Pending() == pt.payload.bytes
            && u.st.Consistent())
  {
  }

  /** A decrypted non-handshake record is returned whole or, during a join, refused as interleaved. */
  lemma PlaceOther(st: State, start: nat, end: nat, msg: PlainMessage)
    requires st.Valid() && !st.QuicJoin() && start == st.RecordStart() && msg.typ != ContentType.Handshake
    requires start + HEADER_SIZE + |msg.payload.bytes| <= end <= st.used
    ensures var u := st.Place(start, end, msg);
      && (st.joiningHs.Some? ==> u.r == Finished(Err(PeerMisbehavedError(INTERLEAVED_ERROR))) && u.st.desynced)
      && (st.joiningHs.None? ==>
            && u.r == Finished(Ok(Some(Deframed(false, true, false, msg))))
            && u.st.joiningHs.None? && u.st.discard == end && u.st.desynced == st.desynced)
  {
  }

  /** A decrypted handshake record is written in place and appended to the join. */
  lemma PlaceHandshake(st: State, start: nat, end: nat, msg: PlainMessage)
    requires st.Valid() && !st.QuicJoin() && start == st.RecordStart() && msg.typ == ContentType.Handshake
    requires start + HEADER_SIZE + |msg.payload.bytes| <= end <= st.used
    ensures var u := st.Place(start, end, msg);
      && u.st.desynced == st.desynced
      && (u.r.Finished? ==> u.r.r == Ok(None) || u.r.r == Err(CorruptMessagePayload(ContentType.Handshake)))
      && (!u.r.Finished? || u.r.r.Ok? ==>
            && u.st.joiningHs.Some? && !u.st.joiningHs.value.quic && u.st.discard == st.discard
            && u.st.joiningHs.value.version ==
                 (if st.joiningHs.Some? then st.joiningHs.value.version else msg.version)
            && u.st.Pending() == st.Pending() + msg.payload.bytes
            && (st.Consistent() ==> u.st.Consistent()))
  {
    var payloadStart := start + HEADER_SIZE;
    var n := |msg.payload.bytes|;
    var lo := if st.joiningHs.Some? then st.joiningHs.value.payload.start else 0;
    var hi := if st.joiningHs.Some? then st.joiningHs.value.payload.end else 0;
    WriteAt(st.buf, payloadStart, msg.payload.bytes, lo, hi);
    var placed := st.WritePlaintext(start, msg);
    assert placed.Pending() == st.Pending();
    if st.joiningHs.Some? {
      FoldIntoJoin(placed, start, end, msg);
    } else {
      FoldStartsJoin(placed, start, end, msg);
    }
    var folded := placed.Fold(start, end, msg);
    assert st.Place(start, end, msg) == folded.st.Gathered(folded.r);
  }

  /** Cutting a whole message off the join leaves the rest of the join's bytes, consistently. */
  lemma EmitCuts(st: State, expectedLen: nat)
    requires st.Valid() && st.joiningHs.Some? && expectedLen <= st.joiningHs.value.payload.Len()
    requires st.joiningHs.value.expectedLen == Some(expectedLen)
    ensures var u := st.Emit(expectedLen);
      && (u.r.Err? ==> u.r.error == CorruptMessagePayload(ContentType.Handshake) && u.st.joiningHs.Some?)
      && (u.r.Ok? ==>
            && u.r.value.Some?
            && var d := u.r.value.value;
            && d.trialDecryptionFinished && !d.wantCloseBeforeDecrypt
            && d.message.typ == ContentType.Handshake && d.message.version == st.joiningHs.value.version
            && (d.aligned <==> u.st.joiningHs.None?)
            && (d.aligned ==> u.st.discard == st.joiningHs.value.message.end)
            && st.Pending() == d.message.payload.bytes + u.st.Pending()
            && |d.message.payload.bytes| == expectedLen
            && (st.Consistent() ==>
                  && u.st.Consistent()
                  && PayloadSize(d.message.payload.bytes) == Ok(Some(expectedLen))
                  && (d.aligned ==> u.st.discard <= u.st.used)))
      && (u.st.joiningHs.Some? ==>
            && u.st.discard == st.discard
            && u.st.joiningHs.value.version == st.joiningHs.value.version
            && u.st.joiningHs.value.quic == st.joiningHs.value.quic)
  {
    var meta := st.joiningHs.value;
    if meta.payload.Len() > expectedLen {
      EmitCutsPart(st, expectedLen);
    } else {
      var message := PlainMessage(ContentType.Handshake, meta.version, Payload(st.Pending()));
      assert st.Emit(expectedLen) ==
        Updated(Ok(Some(Deframed(false, true, true, message))), st.(joiningHs := None, discard := meta.message.end));
    }
  }

  /** `EmitCuts` when the join holds more than the message. */
  lemma EmitCutsPart(st: State, expectedLen: nat)
    requires st.Valid() && st.joiningHs.Some? && expectedLen < st.joiningHs.value.payload.Len()
    requires st.joiningHs.value.expectedLen == Some(expectedLen)
    ensures var u := st.Emit(expectedLen);
      && (u.r.Err? ==> u.r.error == CorruptMessagePayload(ContentType.Handshake) && u.st.joiningHs.Some?)
      && (u.r.Ok? ==>
            && u.r.value.Some?
            && var d := u.r.value.value;
            && d.trialDecryptionFinished && !d.wantCloseBeforeDecrypt
            && d.message.typ == ContentType.Handshake && d.message.version == st.joiningHs.value.version
            && (d.aligned <==> u.st.joiningHs.None?)
            && (d.aligned ==> u.st.discard == st.joiningHs.value.message.end)
            && st.Pending() == d.message.payload.bytes + u.st.Pending()
            && |d.message.payload.bytes| == expectedLen
            && (st.Consistent() ==>
                  && u.st.Consistent()
                  && PayloadSize(d.message.payload.bytes) == Ok(Some(expectedLen))
                  && (d.aligned ==> u.st.discard <= u.st.used)))
      && (u.st.joiningHs.Some? ==>
            && u.st.discard == st.discard
            && u.st.joiningHs.value.version == st.joiningHs.value.version
            && u.st.joiningHs.value.quic == st.joiningHs.value.quic)
  {
    var meta := st.joiningHs.value;
    var stop := meta.payload.start + expectedLen;
    var bytes := st.buf[meta.payload.start..stop];
    var rest := st.buf[stop..meta.payload.end];
    assert st.Pending() == bytes + rest;
    var u := st.Emit(expectedLen);
    var size := PayloadSize(rest);
    var meta' := meta.(payload := Range(stop, meta.payload.end));
    if size.Err? {
      assert u == Updated(Err(size.error), st.(joiningHs := Some(meta')));
    } else {
      var message := PlainMessage(ContentType.Handshake, meta.version, Payload(bytes));
      assert u == Updated(Ok(Some(Deframed(false, false, true, message))), st.(joiningHs := Some(meta'.(expectedLen := size.value))));
      assert u.st.Pending() == rest;
      if st.Consistent() {
        PayloadSizeOfPrefix(bytes, rest);
      }
    }
  }

  // One pass of `pop`, as a whole.

  /**
   * What a pass from `st` to `p` keeps: desynchronisation only with an
   * error; the join's bytes grow by the handshake fragments decrypted; the
   * join's version is the one it started with; a pass goes round again only
   * while joining; a message returned comes from one record.
   */
  predicate PassKeeps(st: State, p: Pass)
    requires st.Valid() && p.st.Valid()
  {
    && (p.st.desynced ==>
          p.step == Finished(Err(CorruptMessage)) || p.step == Finished(Err(PeerMisbehavedError(INTERLEAVED_ERROR))))
    && ((p.step.Finished? ==> p.step.r.Ok?) ==>
          && p.st.Pending() == st.Pending() + HandshakeBytes(p.taken)
          && (st.Consistent() ==> p.st.Consistent()))
    && (p.st.joiningHs.Some? ==> JoinVersion(st.joiningHs, p.taken) == Some(p.st.joiningHs.value.version))
    && (p.step.Again? ==> p.st.joiningHs.Some?)
    && (p.step.Finished? && p.step.r.Ok? && p.step.r.value.Some? ==>
          && st.joiningHs.None? && p.st.joiningHs.None?
          && SingleRecord(ReadOpaque(st.buf[..st.used]), p.step.r.value.value, p.taken, p.st.discard))
  }

  /** The part of a pass after a record parses keeps what a pass keeps. */
  lemma RecordKeeps(st: State, start: nat, m: OpaqueMessage, script: seq<Decryption>)
    requires st.Valid() && !st.QuicJoin() && !st.desynced && start == st.RecordStart()
    requires ReadOpaque(st.NextRecord()) == Ok(m)
    ensures start + m.Len() <= st.used && PassKeeps(st, st.PopRecord(start, m, script))
  {
    if !(m.typ == ContentType.ChangeCipherSpec && st.joiningHs.None?) {
      var dec := Respond(script, m);
      if !dec.Decrypted? {
        RecordRefusedKeeps(st, start, m, script);
      } else if dec.plaintext.typ == ContentType.Handshake {
        RecordHandshakeKeeps(st, start, m, script);
      } else {
        RecordOtherKeeps(st, start, m, script);
      }
    }
  }

  lemma RecordRefusedKeeps(st: State, start: nat, m: OpaqueMessage, script: seq<Decryption>)
    requires st.Valid() && !st.QuicJoin() && !st.desynced && start == st.RecordStart()
    requires ReadOpaque(st.NextRecord()) == Ok(m)
    requires !(m.typ == ContentType.ChangeCipherSpec && st.joiningHs.None?) && !Respond(script, m).Decrypted?
    ensures start + m.Len() <= st.used && PassKeeps(st, st.PopRecord(start, m, script))
  {
    if Respond(script, m).Rejected? {
      HandshakeBytesOfOne(script[0]);
    }
  }

  lemma RecordHandshakeKeeps(st: State, start: nat, m: OpaqueMessage, script: seq<Decryption>)
    requires st.Valid() && !st.QuicJoin() && !st.desynced && start == st.RecordStart() && start + m.Len() <= st.used
    requires !(m.typ == ContentType.ChangeCipherSpec && st.joiningHs.None?)
    requires Respond(script, m).Decrypted? && Respond(script, m).plaintext.typ == ContentType.Handshake
    ensures PassKeeps(st, st.PopRecord(start, m, script))
  {
    HandshakeBytesOfOne(script[0]);
    PlaceHandshakeKeeps(st, start, start + m.Len(), Respond(script, m).plaintext, [script[0]]);
  }

  /** Placing a handshake fragment, decrypted from answers `t`, keeps what a pass keeps. */
  lemma PlaceHandshakeKeeps(st: State, start: nat, end: nat, msg: PlainMessage, t: seq<Decryption>)
    requires st.Valid() && !st.QuicJoin() && !st.desynced && start == st.RecordStart()
    requires msg.typ == ContentType.Handshake && start + HEADER_SIZE + |msg.payload.bytes| <= end <= st.used
    requires HandshakeBytes(t) == msg.payload.bytes && FirstHandshakeVersion(t) == Some(msg.version)
    ensures PassKeeps(st, st.Placed(start, end, msg, t))
  {
    PlaceHandshake(st, start, end, msg);
  }

  lemma RecordOtherKeeps(st: State, start: nat, m: OpaqueMessage, script: seq<Decryption>)
    requires st.Valid() && !st.QuicJoin() && !st.desynced && start == st.RecordStart()
    requires ReadOpaque(st.NextRecord()) == Ok(m)
    requires !(m.typ == ContentType.ChangeCipherSpec && st.joiningHs.None?)
    requires Respond(script, m).Decrypted? && Respond(script, m).plaintext.typ != ContentType.Handshake
    ensures start + m.Len() <= st.used && PassKeeps(st, st.PopRecord(start, m, script))
  {
    HandshakeBytesOfOne(script[0]);
    PlaceOther(st, start, start + m.Len(), Respond(script, m).plaintext);
  }

  /** One pass keeps what a pass keeps. */
  lemma PassKeepsAll(st: State, script: seq<Decryption>)
    requires st.Valid() && !st.desynced && st.used > 0
    ensures PassKeeps(st, st.PopPass(script))
  {
    if !(st.joiningHs.Some? && Satisfied(st.joiningHs.value)) && !st.QuicJoin() {
      var rec := ReadOpaque(st.NextRecord());
      if rec.Ok? {
        RecordKeeps(st, st.RecordStart(), rec.value, script);
      }
    }
  }

  // A whole `pop`.

  /**
   * What a `pop` from `st` to `p` keeps: desynchronisation only with an
   * error; the handshake bytes decrypted are the ones emitted plus the ones
   * still joined; the join's version is the one it started with; a message
   * returned after joining is a whole handshake message, aligned exactly when
   * the join is used up; any other message comes from one record.
   */
  predicate PopKeeps(st: State, p: Popped)
    requires st.Valid() && p.st.Valid()
  {
    && (p.st.desynced ==> p.r == Err(CorruptMessage) || p.r == Err(PeerMisbehavedError(INTERLEAVED_ERROR)))
    && (p.r.Ok? ==>
          && st.Pending() + HandshakeBytes(p.taken) == EmittedHandshake(p.r) + p.st.Pending()
          && (st.Consistent() ==> p.st.Consistent()))
    && (p.st.joiningHs.Some? ==> JoinVersion(st.joiningHs, p.taken) == Some(p.st.joiningHs.value.version))
    && (p.r.Ok? && p.r.value.Some? ==>
          && var d := p.r.value.value;
          && !d.wantCloseBeforeDecrypt
          && if d.trialDecryptionFinished then
               && d.message.typ == ContentType.Handshake
               && JoinVersion(st.joiningHs, p.taken) == Some(d.message.version)
               && (d.aligned <==> p.st.joiningHs.None?)
               && (st.Consistent() ==>
                     && PayloadSize(d.message.payload.bytes) == Ok(Some(|d.message.payload.bytes|))
                     && (d.aligned ==> p.st.discard <= p.st.used))
             else
               && st.joiningHs.None? && p.st.joiningHs.None?
               && SingleRecord(ReadOpaque(st.buf[..st.used]), d, p.taken, p.st.discard))
  }

  /** A pass that finishes `pop` keeps what a `pop` keeps. */
  lemma FinishedKeeps(st: State, pass: Pass)
    requires st.Valid() && pass.st.Valid() && pass.step.Finished? && PassKeeps(st, pass)
    ensures PopKeeps(st, Popped(pass.step.r, pass.st, pass.taken))
  {
  }

  /** A pass that completes the join, followed by the cut, keeps what a `pop` keeps. */
  lemma CompleteKeeps(st: State, pass: Pass)
    requires st.Valid() && pass.st.Valid() && pass.step.Complete? && PassKeeps(st, pass)
    requires pass.st.joiningHs.Some? && pass.st.joiningHs.value.expectedLen == Some(pass.step.expectedLen)
    requires pass.step.expectedLen <= pass.st.joiningHs.value.payload.Len()
    ensures var e := pass.st.Emit(pass.step.expectedLen); PopKeeps(st, Popped(e.r, e.st, pass.taken))
  {
    EmitCuts(pass.st, pass.step.expectedLen);
  }

  /** A pass that goes round again, followed by the rest of `pop`, keeps what a `pop` keeps. */
  lemma AgainKeeps(st: State, pass: Pass, rest: Popped)
    requires st.Valid() && pass.st.Valid() && rest.st.Valid() && pass.step.Again? && PassKeeps(st, pass)
    requires PopKeeps(pass.st, rest)
    ensures PopKeeps(st, Popped(rest.r, rest.st, pass.taken + rest.taken))
  {
    HandshakeBytesAppend(pass.taken, rest.taken);
  }

  /** The loop of `pop` keeps what a `pop` keeps, whatever the record layer answers. */
  lemma {:induction false} LoopKeeps(st: State, script: seq<Decryption>)
    requires st.Valid() && !st.desynced && st.used > 0
    ensures PopKeeps(st, st.PopLoop(script))
    decreases |script|
  {
    var pass := st.PopPass(script);
    PassKeepsAll(st, script);
    match pass.step
    case Finished(r) =>
      FinishedKeeps(st, pass);
    case Complete(n) =>
      CompleteKeeps(st, pass);
    case Again =>
      var later := script[|pass.taken|..];
      LoopKeeps(pass.st, later);
      AgainKeeps(st, pass, pass.st.PopLoop(later));
  }
}
