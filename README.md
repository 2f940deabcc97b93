# rustls message deframer, record and payload codecs — a Dafny model

This project models three files of rustls:

- **`rustls/src/msgs/deframer.rs`: the message deframer.**
  - It buffers bytes read from the transport (`read`, bounded by `prepare_read`), or pushed by QUIC (`push`).
  - `pop` cuts the buffer into TLS records and hands each record to the record layer for decryption in place.
  - It joins handshake fragments spread over several records into whole handshake messages. Interleaving other records is refused, as section 5.1 of RFC 8446 requires.
  - It reports how many bytes the caller should `discard`.
- **`rustls/src/msgs/message.rs`: the forms of a TLS record.**
  - The on-wire `OpaqueMessage`, with its header validation and its encoding.
  - The decrypted `PlainMessage`, the decoded `Message`, the `MessagePayload` decoder, and the conversions between these forms.
- **`rustls/src/msgs/base.rs`: the opaque payloads.**
  - `Payload`, plus the payloads behind a 1-, 2- or 3-byte big-endian length (`PayloadU8`, `PayloadU16`, `PayloadU24`), with their encoders and readers.

Layout:

- `wrappers.dfy`, `codec.dfy`, `enums.dfy`, `errors.dfy`: the `Option`/`Result` types, bytes and big-endian integers, content types and protocol versions, and the errors.
- `base.dfy` (module `Base`): base.rs as functions. `encode` takes the output vector's contents and returns them extended. `read` takes the unread bytes and returns the value with what is left.
- `messages.dfy` (module `Messages`): message.rs as datatypes and functions, with the round-trip lemmas.
- `record_protection.dfy` (module `RecordProtection`): the record layer the deframer calls, scripted with the answers it gives, one per call.
- `deframer_state.dfy` (module `DeframerState`): the deframer's fields as a value, `State`, with one function per operation and per step of `pop`.
- `deframer.dfy` (module `Deframer`): the class `MessageDeframer`.
  - Its fields are the source's fields.
  - Each method changes them in place as the source does: resizing, `copy_within` moves, writing the plaintext over the record, the loop of `pop`. The loop's rejection path is the corrected one (see Findings): where the source `continue`s after a rejection, the model returns `Ok(None)`.
  - Each method is proved to leave exactly the state the `DeframerState` function computes.
- `deframer_properties.dfy`, `pop_properties.dfy`, `buffer_properties.dfy`: what the deframer promises, proved about those functions.
  - One pass of `pop` (module `DeframerProperties`), and a whole `pop`, by induction over its loop (modules `DeframerProperties` and `PopProperties`).
  - The buffer operations (module `BufferProperties`).

The record layer is a parameter. It is the list of answers it will give: a plaintext decrypted in place, a trial-decryption rejection, or an error. So every property of `pop` holds for every possible behaviour of the record layer. `pop` never calls `discard` itself: it records the offset in `discard`, and the caller later applies `Discard`. The model keeps this as two separate steps.

The model's loop of `pop` is the corrected one (see Findings). Each further pass of it consumes one answer from a finite script, so it ends at the latest when the script runs out: an exhausted script answers with a decryption error. The source as written does not end this way: with a record layer that keeps rejecting, it hands the same record to the record layer again and again (`State.PopLoopAsWritten` and `PopProperties.RejectedRecordRereadForever`).

## Model

| member | source | states |
|---|---|---|
| Codec.ReadUInt | rustls/src/msgs/base.rs:100 | a w-byte big-endian read succeeds exactly when w bytes remain; the bytes read are the encoding of the value, followed by the rest |
| Codec.Sub | rustls/src/msgs/base.rs:101 | `Reader::sub` succeeds exactly when `len` bytes remain, and splits off exactly `len` bytes |
| Enums.ContentTypeFromByte | rustls/src/msgs/message.rs:91 | the content type read from a byte encodes back to that byte; it is `Unknown` exactly outside 0x14..0x18 |
| Enums.VersionFromU16 | rustls/src/msgs/message.rs:92 | the version read encodes back to the same 16-bit value; it is `Unknown` exactly for the values with no variant |
| Base.EncodePayload | rustls/src/msgs/base.rs:13-15 | appends the raw bytes with no prefix, and leaves the output's earlier bytes unchanged |
| Base.ReadPayload | rustls/src/msgs/base.rs:17-19 | never fails, and takes every remaining byte |
| Base.EncodePrefixed | rustls/src/msgs/base.rs:88-91 | appends a w-byte length, cast to the width (so wrapped), then the bytes; the earlier output is unchanged |
| Base.ReadPrefixed | rustls/src/msgs/base.rs:99-104 | fails exactly when the prefix is missing or declares more bytes than remain; otherwise the bytes consumed are exactly the encoding of the body read |
| Base.PrefixedRoundTrip | rustls/src/msgs/base.rs:94-104 | a body short enough for its prefix reads back from its encoding, and whatever follows is left unread |
| Base.EncodeU8 | rustls/src/msgs/base.rs:132-135 | a 1-byte length (`len() as u8`), then the bytes, appended to the output |
| Base.ReadU8Payload | rustls/src/msgs/base.rs:137-142 | fails exactly when the length byte is missing or exceeds what remains; consumes exactly the encoding of the payload read |
| Base.PayloadU8RoundTrip | rustls/src/msgs/base.rs:131-142 | `read(encode(p))` is `p` when the payload has at most 255 bytes |
| Base.EncodeU16 | rustls/src/msgs/base.rs:88-97 | a 2-byte big-endian length (`len() as u16`), then the bytes, appended to the output |
| Base.ReadU16Payload | rustls/src/msgs/base.rs:99-104 | fails exactly when the 2-byte length is missing or exceeds what remains; consumes exactly the encoding of the payload read |
| Base.PayloadU16RoundTrip | rustls/src/msgs/base.rs:94-104 | `read(encode(p))` is `p` when the payload has at most 65535 bytes |
| Base.EncodeU24 | rustls/src/msgs/base.rs:57-60 | a 3-byte big-endian length, then the bytes, appended to the output |
| Base.ReadU24Payload | rustls/src/msgs/base.rs:62-66 | fails exactly when the 3-byte length is missing or exceeds what remains; consumes exactly the encoding of the payload read |
| Base.PayloadU24RoundTrip | rustls/src/msgs/base.rs:56-66 | `read(encode(p))` is `p` when the payload has at most 16777215 bytes |
| Base.PayloadU16SequenceRoundTrip | rustls/src/msgs/base.rs:94-104 | two encodings written one after the other read back one after the other, in order |
| Messages.Buffer.Len | rustls/src/msgs/message.rs:313-318 | `len` agrees with `as_ref` for both the slice and the vector |
| Messages.Buffer.Truncate | rustls/src/msgs/message.rs:306-311 | keeps the first `n` bytes when there are that many; a vector truncated past its end is unchanged; the variant is kept |
| Messages.OpaqueMessage.Len | rustls/src/msgs/message.rs:157-159 | the record's wire length is the 5-byte header plus the payload |
| Messages.ReadOpaque | rustls/src/msgs/message.rs:89-130 | each error in exact terms of the header, in the source's order of checks (both directions); on success the type, version and payload are the header's and `buf[5..5+len]`, within `MAX_WIRE_SIZE` |
| Messages.EncodeOpaque | rustls/src/msgs/message.rs:132-139 | type byte, 2-byte version, 2-byte big-endian length wrapped modulo 2^16, then the payload |
| Messages.RecordRoundTrip | rustls/src/msgs/message.rs:89-139 | encoding a record that was read gives back the bytes it was read from |
| Messages.EncodeReadRoundTrip | rustls/src/msgs/message.rs:89-139 | an acceptable record reads back from its encoding, whatever bytes follow it |
| Messages.ReadIsPrefixStable | rustls/src/msgs/message.rs:87-89 | a complete record stays the same record when more bytes arrive |
| Messages.ReadErrorIsPermanent | rustls/src/msgs/message.rs:87-89 | every error except the two "too short" errors stays the same whatever bytes arrive |
| Messages.TooShortForLengthCompletes | rustls/src/msgs/message.rs:120-122 | "too short for length" is a valid prefix: the missing bytes complete the record |
| Messages.ToPlainMessage | rustls/src/msgs/message.rs:141-147 | keeps the type, the version and the payload bytes |
| Messages.ToOwned | rustls/src/msgs/message.rs:149-155 | the same record over an owned vector, with the same wire length |
| Messages.IntoUnencryptedOpaque | rustls/src/msgs/message.rs:205-211 | keeps the type, the version and the payload bytes |
| Messages.Borrow | rustls/src/msgs/message.rs:213-219 | keeps the type, the version and the payload bytes |
| Messages.ToUnencryptedOpaque | rustls/src/msgs/message.rs:287-293 | keeps the type, the version and the payload bytes |
| Messages.ConversionsAgree | rustls/src/msgs/message.rs:141-219 | every path between the forms agrees, and keeps the encoding |
| Messages.ReadAlert | rustls/src/msgs/message.rs:46-48 | an alert read consumes exactly its own encoding |
| Messages.EncodeAlert | rustls/src/msgs/message.rs:24 | appends two bytes after the earlier output |
| Messages.ReadChangeCipherSpec | rustls/src/msgs/message.rs:55-57 | a change-cipher-spec read consumes exactly its own encoding |
| Messages.EncodeChangeCipherSpec | rustls/src/msgs/message.rs:26 | appends one byte after the earlier output |
| Messages.ReadHandshake | rustls/src/msgs/message.rs:49-54 | a handshake read consumes a type byte and a 24-bit length-prefixed body |
| Messages.EncodeMessagePayload | rustls/src/msgs/message.rs:22-29 | appends to the output and leaves its earlier bytes unchanged |
| Messages.NewMessagePayload | rustls/src/msgs/message.rs:38-71 | application data is always taken as it is; heartbeat and unknown types are refused; every error is `CorruptMessagePayload(typ)`; success keeps the type, re-encodes to exactly the payload, and a handshake keeps its encoding |
| Messages.AlertPayloadExact | rustls/src/msgs/message.rs:46-48 | an alert payload decodes exactly when it has two bytes (nothing left over) |
| Messages.ChangeCipherSpecPayloadExact | rustls/src/msgs/message.rs:55-57 | a change-cipher-spec payload decodes exactly when it is the single byte 1 |
| Messages.HandshakePayloadExact | rustls/src/msgs/message.rs:49-54 | a handshake payload decodes exactly when its 24-bit length covers exactly the rest of it |
| Messages.TryFromPlain | rustls/src/msgs/message.rs:264-269 | keeps the version and the content type, and re-encodes to the plaintext's bytes; errors are `CorruptMessagePayload(typ)` |
| Messages.FromMessage | rustls/src/msgs/message.rs:173-190 | the type of the payload and the same version; application data and handshake payloads keep their bytes |
| Messages.DecodeThenPlainIsIdentity | rustls/src/msgs/message.rs:173-190 | decoding a plaintext and converting it back changes nothing |
| Messages.MessageRoundTrip | fuzz/fuzzers/message.rs:8-24 | the fuzzer's round trip: read, decode, convert back and encode gives the bytes that were read |
| RecordProtection.Respond | rustls/src/msgs/deframer.rs:120-139 | a plaintext is never longer than the record's payload; a plaintext or a rejection is the next scripted answer; an exhausted script is a decryption error |
| RecordProtection.RecordLayer.DecryptIncoming | rustls/src/msgs/deframer.rs:120 | gives the next scripted answer and consumes it |
| RecordProtection.RecordLayer.constructor | rustls/src/msgs/deframer.rs:120 | a record layer scripted with the given answers |
| DeframerState.PayloadSize | rustls/src/msgs/deframer.rs:416-429 | `Ok(None)` below 4 bytes; an error exactly when the 24-bit length at bytes 1..4 exceeds 0xffff; otherwise 4 plus that length |
| DeframerState.PayloadSizeOfPrefix | rustls/src/msgs/deframer.rs:184-187 | once the 4-byte header is present, more bytes do not change the expected length (so computing it once is enough) |
| DeframerState.PayloadSizeOfEncoding | rustls/src/msgs/deframer.rs:416-429 | a handshake message that starts with its own header expects exactly its own length |
| DeframerState.Zeros | rustls/src/msgs/deframer.rs:347 | the zero bytes `resize` appends |
| DeframerState.State.PrepareRead | rustls/src/msgs/deframer.rs:325-355 | keeps the state valid and changes only the buffer |
| DeframerState.State.Read | rustls/src/msgs/deframer.rs:310-321 | keeps the state valid |
| DeframerState.State.Discard | rustls/src/msgs/deframer.rs:364-387 | keeps the buffer within bounds and of the same size, and changes only the buffer and `used` |
| DeframerState.State.Push | rustls/src/msgs/deframer.rs:252-306 | keeps the state valid, `desynced` and `discard` |
| DeframerState.State.AppendToJoin | rustls/src/msgs/deframer.rs:270-273 | the pushed bytes written after a QUIC join keep the state valid and the buffer's size; only the buffer and the join's ranges change, and the join then covers them |
| DeframerState.State.PushJoin | rustls/src/msgs/deframer.rs:262-280 | appending to a QUIC join keeps the state valid, `desynced` and `discard` |
| DeframerState.State.Fold | rustls/src/msgs/deframer.rs:171-203 | changes only the buffer and the join; a fold that succeeds leaves a non-QUIC join |
| DeframerState.State.MoveFragment | rustls/src/msgs/deframer.rs:178-181 | the `copy_within` of a fragment keeps the state valid and the buffer's size; only the buffer and the join's ranges change, and the join then covers the record up to `end` and the fragment's bytes |
| DeframerState.State.WritePlaintext | rustls/src/msgs/deframer.rs:120-129 | decryption in place changes only the buffer's bytes, not its size |
| DeframerState.State.Place | rustls/src/msgs/deframer.rs:142-211 | keeps the state valid and `used`; going round again keeps `desynced`; a complete join holds at least its expected length |
| DeframerState.State.Gathered | rustls/src/msgs/deframer.rs:206-211 | the fold's error, a complete message (the join holds its expected length), another pass only over a further buffered record, or a wait |
| DeframerState.State.PopPass | rustls/src/msgs/deframer.rs:73-104 | keeps the state valid and `used`; consumes at most one answer, the first; going round again consumes one and keeps the deframer synchronised |
| DeframerState.State.PopRecord | rustls/src/msgs/deframer.rs:106-139 | consumes at most one answer, the first; keeps the state valid and `used` |
| DeframerState.State.Skipped | rustls/src/msgs/deframer.rs:135-138 | corrected rejection (see Findings): `pop` returns nothing and marks the record for discarding |
| DeframerState.State.SkippedAsWritten | rustls/src/msgs/deframer.rs:135-138 | the rejection as written: marks the record for discarding and keeps the answer consumed; its body goes round again, which `PopProperties.RejectedRecordReread` states |
| DeframerState.State.Placed | rustls/src/msgs/deframer.rs:142-211 | a decrypted record's pass: the answers consumed are the given ones, and the state stays valid |
| DeframerState.State.Emit | rustls/src/msgs/deframer.rs:215-248 | keeps the state valid and changes only the join and `discard` |
| DeframerState.State.PopLoop | rustls/src/msgs/deframer.rs:72-248 | keeps the state valid and `used`; the answers consumed are a prefix of the script |
| DeframerState.State.PopPassAsWritten | rustls/src/msgs/deframer.rs:72-138 | one pass as written, with a rejection outside a join going round again: keeps the state valid and `used`; consumes at most one answer, a prefix of the script; goes round again only after consuming one |
| DeframerState.State.PopLoopAsWritten | rustls/src/msgs/deframer.rs:72-248 | the loop as written: keeps the state valid and `used`; the answers consumed are a prefix of the script |
| DeframerState.State.Pop | rustls/src/msgs/deframer.rs:44-249 | keeps the state valid and `used`; the answers consumed are a prefix of the script |
| Deframer.MessageDeframer.constructor | rustls/src/msgs/deframer.rs:17-36 | `default()`: synchronised, empty, no join |
| Deframer.MessageDeframer.HasPending | rustls/src/msgs/deframer.rs:359-361 | true exactly when some bytes are buffered |
| Deframer.MessageDeframer.PrepareRead | rustls/src/msgs/deframer.rs:325-355 | resizes the buffer in place to the state `State.PrepareRead` computes |
| Deframer.MessageDeframer.Read | rustls/src/msgs/deframer.rs:310-321 | reads into the free space in place; the new fields are those `State.Read` computes |
| Deframer.MessageDeframer.Discard | rustls/src/msgs/deframer.rs:364-387 | moves the kept bytes to the front in place; the new fields are those `State.Discard` computes |
| Deframer.MessageDeframer.Push | rustls/src/msgs/deframer.rs:252-306 | copies the bytes into the buffer in place; the result and fields are those `State.Push` computes |
| Deframer.MessageDeframer.PushJoin | rustls/src/msgs/deframer.rs:262-280 | writes the bytes after the QUIC join in place; the result and fields are those `State.PushJoin` computes |
| Deframer.MessageDeframer.Pop | rustls/src/msgs/deframer.rs:44-249 | the `loop` of `pop`, in place; the result, the fields and the answers consumed are those `State.Pop` computes |
| Deframer.MessageDeframer.PopTurn | rustls/src/msgs/deframer.rs:72-211 | one turn of the loop: either the end of `pop` as `State.PopLoop` computes it, or a state from which the rest of the loop gives the same end |
| Deframer.MessageDeframer.PopOnce | rustls/src/msgs/deframer.rs:73-104 | one pass, in place, as `State.PopPass` computes it |
| Deframer.MessageDeframer.PopRecord | rustls/src/msgs/deframer.rs:106-139 | the rest of a pass after a record parses, in place, as `State.PopRecord` computes it |
| Deframer.MessageDeframer.Place | rustls/src/msgs/deframer.rs:142-211 | writes the plaintext over the record and handles it, in place, as `State.Place` computes |
| Deframer.MessageDeframer.Fold | rustls/src/msgs/deframer.rs:171-203 | the `copy_within` move and the new join, in place, as `State.Fold` computes |
| Deframer.MessageDeframer.Emit | rustls/src/msgs/deframer.rs:215-248 | cuts the complete message off the join, in place, as `State.Emit` computes |
| DeframerProperties.MoveDown | rustls/src/msgs/deframer.rs:178-179 | `copy_within` of a fragment down to the end of the join extends the join's bytes by the fragment |
| DeframerProperties.MovedPending | rustls/src/msgs/deframer.rs:178-181 | after the move, the join's bytes are its old bytes followed by the fragment |
| DeframerProperties.FoldIntoJoin | rustls/src/msgs/deframer.rs:172-190 | a fragment folded into a join is appended to the join's bytes; the join keeps its version and covers the record; its only error is `CorruptMessagePayload(Handshake)`; consistency is kept |
| DeframerProperties.FoldStartsJoin | rustls/src/msgs/deframer.rs:192-201 | a fragment with no join starts a join holding exactly the fragment, with the fragment's version, consistently; an error changes nothing |
| DeframerProperties.PlaceOther | rustls/src/msgs/deframer.rs:142-160 | a non-handshake plaintext is refused as interleaved during a join (and desynchronises); outside a join it is returned, aligned, with the record marked for discarding |
| DeframerProperties.PlaceHandshake | rustls/src/msgs/deframer.rs:165-211 | a handshake plaintext is written in place and appended to the join's bytes, with the join's version; `desynced` is untouched; a pass that finishes here either waits or fails with `CorruptMessagePayload(Handshake)` |
| DeframerProperties.EmitCuts | rustls/src/msgs/deframer.rs:215-248 | the message emitted is the first `expected_len` bytes of the join, a handshake message with the join's version, `trial_decryption_finished`, aligned exactly when the join ends, and then `discard` is the end of the records the join consumed (`message.end`); the rest of the join stays, consistently |
| DeframerProperties.EmitCutsPart | rustls/src/msgs/deframer.rs:227-234 | the same, when the join holds more than the message: the join now starts after the message, and its `expected_len` is read again from what stays |
| DeframerProperties.RecordKeeps | rustls/src/msgs/deframer.rs:106-211 | the part of a pass after a record parses keeps the pass invariant (`PassKeeps`) |
| DeframerProperties.RecordRefusedKeeps | rustls/src/msgs/deframer.rs:120-139 | a refused or failed decryption keeps the pass invariant |
| DeframerProperties.RecordHandshakeKeeps | rustls/src/msgs/deframer.rs:165-211 | a decrypted handshake record keeps the pass invariant |
| DeframerProperties.PlaceHandshakeKeeps | rustls/src/msgs/deframer.rs:165-211 | a handshake fragment from the answers consumed keeps the pass invariant |
| DeframerProperties.RecordOtherKeeps | rustls/src/msgs/deframer.rs:142-160 | a decrypted non-handshake record keeps the pass invariant |
| DeframerProperties.PassKeepsAll | rustls/src/msgs/deframer.rs:73-211 | every pass keeps the pass invariant: `desynced` only with an error; the join grows by exactly the handshake bytes decrypted; the join keeps its version; another pass only while joining; a message returned comes from one record |
| DeframerProperties.FinishedKeeps | rustls/src/msgs/deframer.rs:73-211 | a pass that ends `pop` keeps the invariant of a whole `pop` (`PopKeeps`) |
| DeframerProperties.CompleteKeeps | rustls/src/msgs/deframer.rs:215-248 | a completed join, then the cut, keeps the invariant of a whole `pop` |
| DeframerProperties.AgainKeeps | rustls/src/msgs/deframer.rs:206-211 | a pass that goes round again, followed by the rest of `pop`, keeps the invariant of a whole `pop` |
| DeframerProperties.LoopKeeps | rustls/src/msgs/deframer.rs:72-248 | by induction over the loop: the invariant of a whole `pop` holds for every script of answers |
| PopProperties.PopKeepsAll | rustls/src/msgs/deframer.rs:44-249 | for every script of answers, a `pop` keeps these: `desynced` only with `CorruptMessage` or the interleaving error; the handshake bytes decrypted are the ones emitted followed by the ones still joined; the join keeps its version; an emitted handshake message is aligned exactly when the join ends, and from a consistent join it is one whole message; any other message comes from one record |
| PopProperties.PopBadRecord | rustls/src/msgs/deframer.rs:90-101 | a header or payload cut short waits (`Ok(None)`, nothing changes); any other parse error desynchronises and returns `CorruptMessage` |
| PopProperties.PopChangeCipherSpec | rustls/src/msgs/deframer.rs:106-117 | a ChangeCipherSpec record outside a join is returned undecrypted, aligned, consuming no answer, with `discard` at its end |
| PopProperties.PopDecryptError | rustls/src/msgs/deframer.rs:120-139 | a decryption error ends `pop` with that error and no change |
| PopProperties.PopSkipsRejected | rustls/src/msgs/deframer.rs:135-138 | corrected: a rejected record outside a join gives `Ok(None)` and is marked for discarding |
| PopProperties.RejectedRecordReread | rustls/src/msgs/deframer.rs:135-138 | as written: the loop goes round again and the next pass decrypts the same record again |
| PopProperties.RejectedRecordRereadForever | rustls/src/msgs/deframer.rs:72-138 | as written, by induction over a script of n rejections: every pass goes round again with the same record at offset 0, all n answers are consumed, and the loop ends only with the exhausted script's decryption error |
| PopProperties.PopSingleRecord | rustls/src/msgs/deframer.rs:152-160 | outside a join, a non-handshake plaintext is returned whole and aligned, with the record marked for discarding |
| PopProperties.PopInterleaved | rustls/src/msgs/deframer.rs:131-149 | during a join, a rejected or non-handshake record desynchronises and returns the interleaving error |
| PopProperties.PopQuicWaits | rustls/src/msgs/deframer.rs:77-79 | an incomplete QUIC join returns `Ok(None)` and changes nothing |
| PopProperties.DesyncIsFinal | rustls/src/msgs/deframer.rs:63-64 | once desynchronised, every `pop` returns `CorruptMessage` and changes nothing; `read` and `discard` do not clear it |
| PopProperties.PopWholeHandshake | rustls/src/msgs/deframer.rs:165-248 | a record holding exactly one whole handshake message yields it, aligned, `trial_decryption_finished`, with the record marked for discarding |
| BufferProperties.PrepareReadRoom | rustls/src/msgs/deframer.rs:325-355 | fails with "message buffer full" exactly when `used` reaches the ceiling (0xffff while joining, `MAX_WIRE_SIZE` otherwise), changing nothing; otherwise keeps the buffered bytes and makes at least `min(ceiling, used + 4096)` bytes, shrinking an oversized buffer to that |
| BufferProperties.ReadAppends | rustls/src/msgs/deframer.rs:310-321 | appends as many of the source's bytes as fit (at least one when there are any), within the ceiling; a full buffer is an `InvalidData` error; a failing source adds nothing |
| BufferProperties.ReadKeepsJoin | rustls/src/msgs/deframer.rs:310-321 | reading leaves the bytes of a join in progress unchanged |
| BufferProperties.DiscardShifts | rustls/src/msgs/deframer.rs:364-387 | discarding `t <= used` bytes keeps the rest in order at the front; discarding more changes nothing |
| BufferProperties.PushRefuses | rustls/src/msgs/deframer.rs:252-259 | refuses bytes for a connection that buffers records, or once the ceiling is reached; a refusal adds nothing; a success buffers exactly the bytes, in a QUIC join |
| BufferProperties.PushIntoJoin | rustls/src/msgs/deframer.rs:262-279 | pushing into a QUIC join appends the bytes to the join, keeps its version, and keeps it consistent |
| BufferProperties.PushJoinAppends | rustls/src/msgs/deframer.rs:262-280 | once the buffer is prepared, the QUIC join's bytes are extended by exactly the pushed bytes, with the same version and consistently |
| BufferProperties.PushStartsJoin | rustls/src/msgs/deframer.rs:282-300 | pushing into an empty deframer starts a QUIC join holding exactly the bytes, consistently; its only error is `CorruptMessagePayload(Handshake)` |
| BufferProperties.ReadFresh | rustls/src/msgs/deframer.rs:310-355 | a read outside a join into a buffer with no spare room takes `min(4096, MAX_WIRE_SIZE - used)` bytes |
| BufferProperties.LimitedBuffer | rustls/src/msgs/deframer.rs:725-742 | from a fresh deframer, reads of a 16 KiB record return 4096 four times, then 2053, then the error |

## Left out

- I/O: `read`'s `io::Read` is a `Source`. It is either a chunk of bytes, or a reader that fails, possibly after writing into the free space. `io::Error` is reduced to `Io`.
- The record layer (`record_layer.rs` is not part of this model) is reduced to its answers: a plaintext at most as long as the record's payload, written in place; a trial-decryption rejection; or an error. `want_close_before_decrypt` is always false.
- The `continuation` closure of `pop` is left out: `pop` returns its result.
- Lifetimes, `Cow`, and the aliasing between a `Buffer::Slice` and the deframer's buffer are left out. A record's payload is a copy of the bytes it shows.
- `shrink_to` and vector capacity are left out: only the buffer's length is modelled.
- Deframer.MessageDeframer.Read, DeframerState.State.Read, BufferProperties.ReadAppends, BufferProperties.ReadKeepsJoin: require that no QUIC join is in progress. A QUIC connection feeds the deframer only through `push`.
- Deframer.MessageDeframer.Push: requires the bytes to fit in the buffer `prepare_read` leaves (`State.PushFits`), because the source panics on the slice index otherwise. It also requires any join to be a QUIC join, as the `debug_assert` at deframer.rs:265 does.
- Deframer.MessageDeframer.Discard: the join's offsets are not adjusted, as in the source. Only the buffer's bounds are required, and the join invariant is not claimed after a discard made during a join.
- PopProperties.PopKeepsAll: for a message emitted when a join ends, it states only that `discard` is within the buffered bytes. The exact value, the join's `message.end` (deframer.rs:238-241), is stated by `DeframerProperties.EmitCuts` for the pass that cuts the message. It is not restated here because the join is gone once `pop` returns.
- `cfg(feature = "quic")` is left out: `push` is always available.
- The tests of deframer.rs call `pop` with the record layer alone, and expect nothing pending right after a `pop`. That holds only once the caller applies `discard`. `LimitedBuffer` is the one test restated here.
- alert.rs, ccs.rs, handshake.rs, codec.rs and enums.rs are not part of this model. Their parsers are abstracted by the framing fixed in section 6 and section 4 of RFC 8446 and section 7.1 of RFC 5246. The enums are their known variants plus `Unknown`.
- `MessagePayload::handshake`, `Message::is_handshake_type`, `Message::build_alert` and `Message::build_key_update_notify` are left out. They depend on handshake.rs, which is not part of this model.
- `Payload::new`, `empty`, `to_owned`, `PayloadU8::into_inner` and the other constructors are the identity on bytes: they are the datatype constructors. The `Debug` impls and `hex` are left out.
- After a `payload_size` error while cutting a message off the join (deframer.rs:232), the join's start has moved past the message, the message is dropped, and `expected_len` keeps its old value. This is modelled as written; no property about joins after such an error is claimed. `State.Consistent` does not hold then.

## Findings

| source | as written | input that shows it | evidently intended | confidence | as-written member | corrected member |
|---|---|---|---|---|---|---|
| rustls/src/msgs/deframer.rs:135-138 | after a trial-decryption rejection with no join in progress, `pop` only notes `discard = end` and `continue`s; the next pass starts again at offset 0 | one complete non-ChangeCipherSpec record buffered, and a record layer that rejects it: the next pass parses the same record and hands it to the record layer again, for as long as it keeps rejecting | the rejected record is skipped: `pop` returns `Ok(None)`, as its doc comment at deframer.rs:41-43 says, with the record marked for discarding | medium; not executed | PopProperties.RejectedRecordRereadForever | PopProperties.PopSkipsRejected |

The rest of the model (`State.PopRecord` and `MessageDeframer.PopRecord`) uses the corrected behaviour. So a pass goes round again only while a join is in progress (`PassKeeps`).
