/**
 * The message deframer of rustls/src/msgs/deframer.rs: it buffers bytes read
 * from the transport, cuts them into TLS records, has each record decrypted
 * in place, and joins handshake fragments spread over several records into
 * whole handshake messages (section 5.1 of RFC 8446). A QUIC connection feeds
 * it handshake bytes directly through `Push` instead.
 *
 * Each method changes the fields in place, step by step as the source does,
 * and is proved to leave the state that the function of the same name in
 * `DeframerState` computes from the state before.
 */
module Deframer {
  import opened Wrappers
  import opened Codec
  import opened Errors
  import opened Enums
  import opened Base
  import opened Messages
  import opened RecordProtection
  import opened DeframerState

  class MessageDeframer {
    var desynced: bool
    var buf: seq<Byte>
    var joiningHs: Option<HandshakePayloadMeta>
    var used: nat
    var discard: nat

    /** The fields as a value. */
    ghost function Model(): State
      reads this
    {
      State(desynced, buf, joiningHs, used, discard)
    }

    /** `MessageDeframer::default()`. */
    constructor ()
      ensures Model() == State(false, [], None, 0, 0)
    {
      desynced := false;
      buf := [];
      joiningHs := None;
      used := 0;
      discard := 0;
    }

    /** `has_pending`: there are buffered bytes not yet discarded. */
    function HasPending(): (p: bool)
      reads this
      requires Model().Valid()
      ensures p <==> buf[..used] != []
    {
      used > 0
    }

    /** `prepare_read`. */
    method PrepareRead() returns (r: Result<(), string>)
      requires Model().Valid()
      modifies this`buf
      ensures Updated(r, Model()) == old(Model()).PrepareRead()
    {
      var allowMax := if joiningHs.Some? then MAX_HANDSHAKE_SIZE else MAX_WIRE_SIZE;
      if used >= allowMax {
        return Err(BUFFER_FULL);
      }
      var need := Min(allowMax, used + READ_SIZE);
      if need > |buf| {
        buf := buf + Zeros(need - |buf|);
      } else if |buf| > allowMax {
        buf := buf[..need];
      }
      r := Ok(());
    }

    /** `read`. Not available while a QUIC join is in progress, which is fed only by `Push`. */
    method Read(rd: Source) returns (r: Result<nat, ReadError>)
      requires Model().Valid() && !Model().QuicJoin()
      modifies this`buf, this`used
      ensures Updated(r, Model()) == old(Model()).Read(rd)
    {
      var prepared := PrepareRead();
      if prepared.Err? {
        return Err(InvalidData(prepared.error));
      }
      var room := |buf| - used;
      match rd {
        case Chunk(data) =>
          var n := Min(|data|, room);
          buf := buf[..used] + data[..n] + buf[used + n..];
          used := used + n;
          r := Ok(n);
        case Failing(scribble) =>
          var n := Min(|scribble|, room);
          buf := buf[..used] + scribble[..n] + buf[used + n..];
          r := Err(Io);
      }
    }

    /** `discard`. */
    method Discard(taken: nat)
      requires Model().BufferValid()
      modifies this`buf, this`used
      ensures Model() == old(Model()).Discard(taken)
    {
      if taken < used {
        buf := buf[taken..used] + buf[used - taken..];
        used := used - taken;
      } else if taken == used {
        used := 0;
      }
    }

    /** `push`. */
    method Push(version: ProtocolVersion, payload: seq<Byte>) returns (r: Result<(), Error>)
      requires Model().Valid() && (joiningHs.Some? ==> joiningHs.value.quic) && Model().PushFits(payload)
      modifies this`buf, this`used, this`joiningHs
      ensures Updated(r, Model()) == old(Model()).Push(version, payload)
    {
      if used > 0 && joiningHs.None? {
        return Err(General(UNRELATED_PUSH));
      }
      var prepared := PrepareRead();
      if prepared.Err? {
        return Err(General(prepared.error));
      }
      if joiningHs.Some? {
        r := PushJoin(payload);
        return;
      }
      var end := used + |payload|;
      var size := PayloadSize(payload);
      if size.Err? {
        return Err(size.error);
      }
      buf := payload + buf[|payload|..];
      joiningHs := Some(HandshakePayloadMeta(Range(0, end), Range(0, |payload|), version, size.value, true));
      used := end;
      r := Ok(());
    }

    /** The part of `push` that appends the bytes to a QUIC join, once the buffer is prepared. */
    method PushJoin(payload: seq<Byte>) returns (r: Result<(), Error>)
      requires Model().Valid() && joiningHs.Some? && joiningHs.value.quic
      requires joiningHs.value.payload.end + |payload| <= |buf|
      modifies this`buf, this`used, this`joiningHs
      ensures Updated(r, Model()) == old(Model()).PushJoin(payload)
    {
      var end := used + |payload|;
      var meta := joiningHs.value;
      buf := buf[..meta.payload.end] + payload + buf[meta.payload.end + |payload|..];
      meta := meta.(message := Range(meta.message.start, end), payload := Range(meta.payload.start, meta.payload.end + |payload|));
      joiningHs := Some(meta);
      if meta.expectedLen.None? {
        var size := PayloadSize(buf[meta.payload.start..meta.payload.end]);
        if size.Err? {
          return Err(size.error);
        }
        joiningHs := Some(meta.(expectedLen := size.value));
      }
      used := end;
      r := Ok(());
    }

    /**
     * `pop`: return the next whole message the buffered bytes hold, asking
     * `rl` to decrypt records as needed. `taken` is the answers `rl` gave.
     */
    method Pop(rl: RecordLayer) returns (r: Result<Option<Deframed>, Error>, ghost taken: seq<Decryption>)
      requires Model().Valid()
      modifies this`buf, this`joiningHs, this`discard, this`desynced, rl
      ensures Popped(r, Model(), taken) == old(Model()).Pop(old(rl.answers))
      ensures old(rl.answers) == taken + rl.answers
    {
      taken := [];
      if desynced {
        return Err(CorruptMessage), taken;
      }
      if used == 0 {
        return Ok(None), taken;
      }
      ghost var whole := old(Model()).PopLoop(old(rl.answers));
      AppendEmpty(whole.taken);
      AppendEmpty(rl.answers);
      var done := false;
      r := Ok(None);
      while !done
        invariant Model().Valid() && used > 0
        invariant old(rl.answers) == taken + rl.answers
        invariant done ==> whole == Popped(r, Model(), taken)
        invariant !done ==> !desynced && var rest := Model().PopLoop(rl.answers);
          whole == Popped(rest.r, rest.st, taken + rest.taken)
        decreases |rl.answers|, !done
      {
        ghost var prior := taken;
        ghost var d;
        done, r, d := PopTurn(rl);
        taken := taken + d;
        AppendAssoc(prior, d, rl.answers);
        if !done {
          AppendAssoc(prior, d, Model().PopLoop(rl.answers).taken);
        }
      }
    }

    /**
     * One turn of the loop in `pop`: a pass, and, when it completes a
     * message, its emission. `d` is the answer `rl` gave, if it was asked.
     */
    method PopTurn(rl: RecordLayer) returns (done: bool, r: Result<Option<Deframed>, Error>, ghost d: seq<Decryption>)
      requires Model().Valid() && !desynced && used > 0
      modifies this`buf, this`joiningHs, this`discard, this`desynced, rl
      ensures old(rl.answers) == d + rl.answers
      ensures done ==> Popped(r, Model(), d) == old(Model()).PopLoop(old(rl.answers))
      ensures !done ==>
        && Model().Valid() && !desynced && used > 0 && |d| > 0
        && var next := Model().PopLoop(rl.answers);
           old(Model()).PopLoop(old(rl.answers)) == Popped(next.r, next.st, d + next.taken)
    {
      ghost var before := Model();
      ghost var script := rl.answers;
      ghost var rest := before.PopLoop(script);
      var step;
      step, d := PopOnce(rl);
      ghost var pass := Pass(step, Model(), d);
      assert pass == before.PopPass(script);
      match step {
        case Finished(res) =>
          assert rest == Popped(res, Model(), d);
          return true, res, d;
        case Complete(n) =>
          r := Emit(n);
          assert rest == Popped(r, Model(), d);
          return true, r, d;
        case Again =>
          assert rl.answers == script[|d|..];
          return false, Ok(None), d;
      }
    }

    /** One pass of the loop in `pop`. `d` is the answer `rl` gave, if it was asked. */
    method PopOnce(rl: RecordLayer) returns (s: PopStep, ghost d: seq<Decryption>)
      requires Model().Valid() && !desynced && used > 0
      modifies this`buf, this`joiningHs, this`discard, this`desynced, rl
      ensures Pass(s, Model(), d) == old(Model()).PopPass(old(rl.answers))
      ensures old(rl.answers) == d + rl.answers
    {
      d := [];
      var start: nat := 0;
      if joiningHs.Some? {
        var meta := joiningHs.value;
        if meta.expectedLen.Some? && meta.expectedLen.value <= meta.payload.Len() {
          return Complete(meta.expectedLen.value), d;
        }
        if meta.quic {
          return Finished(Ok(None)), d;
        }
        start := meta.message.end;
      }
      var rec := ReadOpaque(buf[start..used]);
      if rec.Err? {
        if rec.error == TooShortForHeader || rec.error == TooShortForLength {
          return Finished(Ok(None)), d;
        }
        desynced := true;
        return Finished(Err(CorruptMessage)), d;
      }
      s, d := PopRecord(rl, start, rec.value);
    }

    /** The part of a pass after a whole record `m` is parsed at `start`. */
    method PopRecord(rl: RecordLayer, start: nat, m: OpaqueMessage) returns (s: PopStep, ghost d: seq<Decryption>)
      requires Model().Valid() && !Model().QuicJoin() && start == Model().RecordStart() && start + m.Len() <= used
      modifies this`buf, this`joiningHs, this`discard, this`desynced, rl
      ensures Pass(s, Model(), d) == old(Model()).PopRecord(start, m, old(rl.answers))
      ensures old(rl.answers) == d + rl.answers
    {
      d := [];
      var end := start + m.Len();
      if m.typ == ContentType.ChangeCipherSpec && joiningHs.None? {
        discard := end;
        return Finished(Ok(Some(Deframed(false, true, false, ToPlainMessage(m))))), d;
      }
      ghost var script := rl.answers;
      var dec := rl.DecryptIncoming(m);
      d := if script == [] then [] else [script[0]];
      assert dec == Respond(script, m) && Model() == old(Model());
      if dec.Failed? {
        return Finished(Err(dec.error)), d;
      }
      if dec.Rejected? {
        if joiningHs.Some? {
          desynced := true;
          return Finished(Err(PeerMisbehavedError(INTERLEAVED_ERROR))), d;
        }
        discard := end;
        return Finished(Ok(None)), d;
      }
      s := Place(start, end, dec.plaintext);
      assert Pass(s, Model(), d) == old(Model()).Placed(start, end, dec.plaintext, d);
    }

    /** The part of `pop` after a record decrypts in place. */
    method Place(start: nat, end: nat, msg: PlainMessage) returns (s: PopStep)
      requires Model().Valid() && !Model().QuicJoin() && start == Model().RecordStart()
      requires start + HEADER_SIZE + |msg.payload.bytes| <= end <= used
      modifies this`buf, this`joiningHs, this`discard, this`desynced
      ensures Updated(s, Model()) == old(Model()).Place(start, end, msg)
    {
      var payloadStart := start + HEADER_SIZE;
      var n := |msg.payload.bytes|;
      buf := buf[..payloadStart] + msg.payload.bytes + buf[payloadStart + n..];
      ghost var placed := Model();
      assert placed == old(Model()).WritePlaintext(start, msg);
      if joiningHs.Some? && msg.typ != ContentType.Handshake {
        desynced := true;
        return Finished(Err(PeerMisbehavedError(INTERLEAVED_ERROR)));
      }
      if msg.typ != ContentType.Handshake {
        discard := end;
        return Finished(Ok(Some(Deframed(false, true, false, msg))));
      }
      var folded := Fold(start, end, msg);
      assert Updated(folded, Model()) == placed.Fold(start, end, msg);
      if folded.Err? {
        return Finished(Err(folded.error));
      }
      var meta := joiningHs.value;
      if meta.expectedLen.Some? && meta.expectedLen.value <= meta.payload.Len() {
        return Complete(meta.expectedLen.value);
      }
      if used > meta.message.end {
        return Again;
      }
      return Finished(Ok(None));
    }

    /** The part of `pop` that adds a decrypted handshake fragment to the join. */
    method Fold(start: nat, end: nat, pt: PlainMessage) returns (r: Result<(), Error>)
      requires Model().Valid() && !Model().QuicJoin() && start == Model().RecordStart()
      requires start + HEADER_SIZE + |pt.payload.bytes| <= end <= used
      modifies this`buf, this`joiningHs
      ensures Updated(r, Model()) == old(Model()).Fold(start, end, pt)
    {
      var payloadStart := start + HEADER_SIZE;
      var n := |pt.payload.bytes|;
      if joiningHs.Some? {
        var meta := joiningHs.value;
        buf := buf[..meta.payload.end] + buf[payloadStart..payloadStart + n] + buf[meta.payload.end + n..];
        meta := meta.(message := Range(meta.message.start, end), payload := Range(meta.payload.start, meta.payload.end + n));
        joiningHs := Some(meta);
        assert Model() == old(Model()).MoveFragment(start, end, n);
        if meta.expectedLen.None? {
          var size := PayloadSize(buf[meta.payload.start..meta.payload.end]);
          if size.Err? {
            return Err(size.error);
          }
          joiningHs := Some(meta.(expectedLen := size.value));
        }
      } else {
        var size := PayloadSize(buf[payloadStart..payloadStart + n]);
        if size.Err? {
          return Err(size.error);
        }
        joiningHs := Some(HandshakePayloadMeta(Range(0, end), Range(payloadStart, payloadStart + n), pt.version, size.value, false));
      }
      r := Ok(());
    }

    /** The end of `pop`: cut the completed handshake message off the join. */
    method Emit(expectedLen: nat) returns (r: Result<Option<Deframed>, Error>)
      requires Model().Valid() && joiningHs.Some? && expectedLen <= joiningHs.value.payload.Len()
      modifies this`joiningHs, this`discard
      ensures Updated(r, Model()) == old(Model()).Emit(expectedLen)
    {
      var meta := joiningHs.value;
      var stop := meta.payload.start + expectedLen;
      var message := PlainMessage(ContentType.Handshake, meta.version, Payload(buf[meta.payload.start..stop]));
      if meta.payload.Len() > expectedLen {
        meta := meta.(payload := Range(stop, meta.payload.end));
        joiningHs := Some(meta);
        var size := PayloadSize(buf[meta.payload.start..meta.payload.end]);
        if size.Err? {
          return Err(size.error);
        }
        joiningHs := Some(meta.(expectedLen := size.value));
      } else {
        var end := meta.message.end;
        joiningHs := None;
        discard := end;
      }
      r := Ok(Some(Deframed(false, joiningHs.None?, true, message)));
    }
  }

  lemma AppendEmpty<T>(a: seq<T>)
    ensures [] + a == a
  {
  }

  lemma AppendAssoc<T>(a: seq<T>, b: seq<T>, c: seq<T>)
    ensures a + (b + c) == (a + b) + c
  {
  }
}
