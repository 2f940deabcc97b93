/**
 * What one call of `pop` does, proved about `DeframerState.State.Pop`:
 * the invariants of the whole call, and the outcome for each kind of
 * record it can meet first.
 */
module PopProperties {
  import opened Wrappers
  import opened Errors
  import opened Enums
  import opened Messages
  import opened RecordProtection
  import opened DeframerState
  import opened DeframerProperties

  /** Whatever the record layer answers, a `pop` keeps what a `pop` keeps. */
  lemma PopKeepsAll(st: State, script: seq<Decryption>)
    requires st.Valid()
    ensures PopKeeps(st, st.Pop(script))
  {
    if !st.desynced && st.used > 0 {
      LoopKeeps(st, script);
    }
  }

  /**
   * The next record is cut short or malformed: `pop` waits for more bytes
   * when the header or the payload is incomplete, and otherwise fails and
   * marks the deframer desynchronised.
   */
  lemma PopBadRecord(st: State, script: seq<Decryption>)
    requires st.Valid() && !st.desynced && !st.QuicJoin()
    requires !(st.joiningHs.Some? && Satisfied(st.joiningHs.value))
    requires ReadOpaque(st.NextRecord()).Err?
    ensures var e := ReadOpaque(st.NextRecord()).error;
      st.Pop(script) ==
        if e == TooShortForHeader || e == TooShortForLength then Popped(Ok(None), st, [])
        else Popped(Err(CorruptMessage), st.(desynced := true), [])
  {
    if st.used == 0 {
      assert |st.NextRecord()| == 0;
    }
  }

  /** A ChangeCipherSpec record outside a join is returned as it is, without decryption. */
  lemma PopChangeCipherSpec(st: State, m: OpaqueMessage, script: seq<Decryption>)
    requires st.Valid() && !st.desynced && st.joiningHs.None?
    requires ReadOpaque(st.buf[..st.used]) == Ok(m) && m.typ == ContentType.ChangeCipherSpec
    ensures st.Pop(script) ==
      Popped(Ok(Some(Deframed(false, true, false, ToPlainMessage(m)))), st.(discard := m.Len()), [])
  {
  }

  /** A record the record layer fails to decrypt ends `pop` with that error and no change. */
  lemma PopDecryptError(st: State, m: OpaqueMessage, script: seq<Decryption>)
    requires st.Valid() && !st.desynced && !st.QuicJoin()
    requires !(st.joiningHs.Some? && Satisfied(st.joiningHs.value))
    requires ReadOpaque(st.NextRecord()) == Ok(m)
    requires !(m.typ == ContentType.ChangeCipherSpec && st.joiningHs.None?) && Respond(script, m).Failed?
    ensures var p := st.Pop(script);
      p.r == Err(Respond(script, m).error) && p.st == st && |p.taken| <= 1
  {
  }

  /** A record rejected by trial decryption outside a join is skipped: `pop` returns nothing. */
  lemma PopSkipsRejected(st: State, m: OpaqueMessage, script: seq<Decryption>)
    requires st.Valid() && !st.desynced && st.joiningHs.None?
    requires ReadOpaque(st.buf[..st.used]) == Ok(m) && m.typ != ContentType.ChangeCipherSpec
    requires script != [] && script[0] == Rejected
    ensures st.Pop(script) == Popped(Ok(None), st.(discard := m.Len()), [Rejected])
  {
  }

  /**
   * As the source writes the rejection, the loop goes round again at offset
   * 0, so the next pass hands the same record to the record layer again.
   */
  lemma RejectedRecordReread(st: State, m: OpaqueMessage, script: seq<Decryption>)
    requires st.Valid() && !st.desynced && st.joiningHs.None?
    requires ReadOpaque(st.buf[..st.used]) == Ok(m) && m.typ != ContentType.ChangeCipherSpec
    requires script != [] && script[0] == Rejected
    ensures var q := st.SkippedAsWritten(m.Len(), [Rejected]);
      && q.step.Again? && q.st.Valid() && !q.st.desynced && q.st.used > 0
      && q.st.PopPass(script[1..]) == q.st.PopRecord(0, m, script[1..])
  {
  }

  /**
   * As the source writes the rejection, a record layer that keeps rejecting
   * keeps being handed the same record: with a script of rejections only,
   * the loop takes every answer, each for the record `m` that stays at offset
   * 0, and ends only when the script runs out, with its decryption error.
   */
  lemma {:induction false} RejectedRecordRereadForever(st: State, m: OpaqueMessage, script: seq<Decryption>)
    requires st.Valid() && !st.desynced && st.joiningHs.None?
    requires ReadOpaque(st.buf[..st.used]) == Ok(m) && m.typ != ContentType.ChangeCipherSpec
    requires forall i :: 0 <= i < |script| ==> script[i] == Rejected
    ensures script != [] ==> st.PopPassAsWritten(script) == Pass(Again, st.(discard := m.Len()), [Rejected])
    ensures st.PopLoopAsWritten(script) ==
      Popped(Err(DecryptError), if script == [] then st else st.(discard := m.Len()), script)
    decreases |script|
  {
    assert st.buf[st.RecordStart()..st.used] == st.buf[..st.used];
    if script == [] {
      assert st.PopPass(script) == st.PopRecord(0, m, script);
    } else {
      assert Respond(script, m) == Rejected;
      var next := st.(discard := m.Len());
      assert next.buf[..next.used] == st.buf[..st.used];
      RejectedRecordRereadForever(next, m, script[1..]);
      assert [Rejected] + script[1..] == script;
    }
  }

  /** Outside a join, a record that decrypts to anything but handshake data is returned whole. */
  lemma PopSingleRecord(st: State, m: OpaqueMessage, msg: PlainMessage, script: seq<Decryption>)
    requires st.Valid() && !st.desynced && st.joiningHs.None?
    requires ReadOpaque(st.buf[..st.used]) == Ok(m) && m.typ != ContentType.ChangeCipherSpec
    requires script != [] && script[0] == Decrypted(msg) && msg.typ != ContentType.Handshake
    requires |msg.payload.bytes| <= m.payload.Len()
    ensures var p := st.Pop(script);
      && p.r == Ok(Some(Deframed(false, true, false, msg)))
      && p.st.joiningHs.None? && !p.st.desynced && p.st.discard == m.Len() && p.taken == [script[0]]
  {
    PlaceOther(st, 0, m.Len(), msg);
  }

  /**
   * During a join, a rejected record or one that decrypts to anything but
   * handshake data is refused as interleaved, and the deframer is desynchronised.
   */
  lemma PopInterleaved(st: State, m: OpaqueMessage, script: seq<Decryption>)
    requires st.Valid() && !st.desynced && st.joiningHs.Some? && !st.QuicJoin()
    requires !Satisfied(st.joiningHs.value)
    requires ReadOpaque(st.NextRecord()) == Ok(m) && Interleaves(Respond(script, m))
    ensures var p := st.Pop(script);
      p.r == Err(PeerMisbehavedError(INTERLEAVED_ERROR)) && p.st.desynced && p.taken == [script[0]]
  {
    var start := st.RecordStart();
    if Respond(script, m).Decrypted? {
      PlaceOther(st, start, start + m.Len(), Respond(script, m).plaintext);
    }
  }

  /** A QUIC join that does not yet hold a whole message waits for `push`. */
  lemma PopQuicWaits(st: State, script: seq<Decryption>)
    requires st.Valid() && !st.desynced && st.QuicJoin() && !Satisfied(st.joiningHs.value)
    ensures st.Pop(script) == Popped(Ok(None), st, [])
  {
  }

  /** Desynchronisation is final: every later `pop` fails, and nothing else clears it. */
  lemma DesyncIsFinal(st: State, script: seq<Decryption>, rd: Source, taken: nat)
    requires st.Valid() && st.desynced
    ensures st.Pop(script) == Popped(Err(CorruptMessage), st, [])
    ensures !st.QuicJoin() ==> st.Read(rd).st.desynced
    ensures st.Discard(taken).desynced
  {
  }

  /**
   * Outside a join, a record that decrypts to exactly one whole handshake
   * message yields that message, aligned, and the record is marked for discarding.
   */
  lemma PopWholeHandshake(st: State, m: OpaqueMessage, msg: PlainMessage, script: seq<Decryption>)
    requires st.Valid() && !st.desynced && st.joiningHs.None?
    requires ReadOpaque(st.buf[..st.used]) == Ok(m) && m.typ != ContentType.ChangeCipherSpec
    requires script != [] && script[0] == Decrypted(msg) && msg.typ == ContentType.Handshake
    requires |msg.payload.bytes| <= m.payload.Len()
    requires PayloadSize(msg.payload.bytes) == Ok(Some(|msg.payload.bytes|))
    ensures var p := st.Pop(script);
      && p.r == Ok(Some(Deframed(false, true, true, msg)))
      && p.st.joiningHs.None? && !p.st.desynced && p.st.discard == m.Len() && p.taken == [script[0]]
  {
    PlaceHandshake(st, 0, m.Len(), msg);
    var u := st.Place(0, m.Len(), msg);
    assert u.r == Complete(|msg.payload.bytes|);
    EmitCuts(u.st, |msg.payload.bytes|);
  }
}
