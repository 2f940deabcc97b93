/** The errors the deframer and the message layer report (a subset of `rustls::Error`). */
module Errors {
  import opened Enums

  datatype Error =
    | CorruptMessage
    | CorruptMessagePayload(typ: ContentType)
    | PeerMisbehavedError(why: string)
    | DecryptError
    | General(why: string)
}
