/**
 * The record-protection collaborator the deframer calls (`RecordLayer`,
 * whose source, record_layer.rs, is not part of this model).
 *
 * A record layer answers each `decrypt_incoming` call in one of three ways:
 * a plaintext decrypted in place, a rejection by trial decryption, or an
 * error. The model is a record layer scripted with the answers it will give,
 * one per call, in order. Because decryption happens in place, a plaintext
 * is never longer than the record's payload; a scripted plaintext that is
 * longer, and any call once the script is exhausted, is answered with a
 * decryption error.
 */
module RecordProtection {
  import opened Errors
  import opened Messages

  datatype Decryption =
    | Decrypted(plaintext: PlainMessage)
    | Rejected
    | Failed(error: Error)

  /** The answer to a request to decrypt record `m`, given the remaining script. */
  function Respond(script: seq<Decryption>, m: OpaqueMessage): (d: Decryption)
    ensures d.Decrypted? ==> |d.plaintext.payload.bytes| <= m.payload.Len()
    ensures d.Decrypted? || d.Rejected? ==> script != [] && d == script[0]
    ensures script == [] ==> d == Failed(DecryptError)
  {
    if script == [] then Failed(DecryptError)
    else if script[0].Decrypted? && |script[0].plaintext.payload.bytes| > m.payload.Len() then Failed(DecryptError)
    else script[0]
  }

  class RecordLayer {
    /** The answers still to be given, in order. */
    var answers: seq<Decryption>

    constructor (answers: seq<Decryption>)
      ensures this.answers == answers
    {
      this.answers := answers;
    }

    /** `RecordLayer::decrypt_incoming`: gives the next scripted answer. */
    method DecryptIncoming(m: OpaqueMessage) returns (d: Decryption)
      modifies this
      ensures d == Respond(old(answers), m)
      ensures answers == if old(answers) == [] then [] else old(answers)[1..]
    {
      d := Respond(answers, m);
      if answers != [] {
        answers := answers[1..];
      }
    }
  }
}
