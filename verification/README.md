# Models of the transport and wire-format code behind the app

This project models the protocol code that the repository vendors under `iOS/Pods` and proves what it is
for. `dafny verify dfyconfig.toml` verifies it.

**DTLS handshake transport** (BoringSSL; sections 4.1, 4.1.2.6, 4.2.3 and 4.2.4 of RFC 6347).
`Sender` cuts a flight of messages into records that fit the MTU, seals them under per-epoch record numbers
and sends them again on request; `Receiver` filters replays with a 64-bit window, reassembles overlapping
fragments with a bitmask, keeps a ring of seven partial messages and hands them out in order. Both are classes
that update fields, arrays and objects in place as the source does. `ReceiverSpec` and `SenderSpec` say on
values what they do, and `Sending` the sender as a whole. `Transport` puts sender, network and receiver together as a state machine and proves, over
every run, that what is handed out is a prefix of what was queued; `TransportLimit` shows exactly how far the
16-bit message numbers carry that; `TransportProgress` shows exactly which genuine records end a handshake, and
`TransportFlight` that a flight that gets through is delivered.
`RetransmitTimer` models the backoff timer.

**nanopb** encoder and decoder. `PbSchema` describes field lists and the structs they stand for; `PbEncodeSpec`
and `PbDecodeSpec` say which bytes a struct is written as and what is made of any bytes. `PbOutput`,
`PbEncoder`, `PbInput`, `PbDecoder` and `PbIterator` are the streams, loops and the cyclic field iterator of the
source, proved against them. `PbRoundTrip`, `PbBounds`, `PbUnknown` and `PbRequired` prove what the format
promises: round trips, bounds, transparency of unknown fields, required fields. `PbRepeated` treats arrays in every
form, `PbEvolution` readers with other schemas, and `PbExact` what is left out, refused, overwritten or merged.
`PbLimits` gives inputs at which the promises end; `Varint` and `VarintAny` treat the integers.

**Reference counts.** `RefCount` models the compare-and-swap loops as a state machine over their atomic steps and
proves that they refine the locked count.

**TLS extensions** (section 7.4.1.4 of RFC 5246). `CustomExtensions` models the registry and the bit set of custom
extensions on both sides; `TlsExtensions` the extension parser.

Machine words are natural numbers with the bitwise operators of `Bits`, and wrap where the source's types do:
16-bit epochs, message numbers and extension sets, 32-bit timer fields, counts and varints, 48-bit record numbers,
the 64-bit replay window, 8-bit bit positions in the varint decoder.

Properties that turned out not to hold as a reader might expect, with what holds instead:

- In-order delivery is certain up to 65,536 messages and no further: `TransportLimit.DeliveryLimit`. `LostFlights` is a run
  of 65,537 in which message 65,536 passes for message 0. It queues new flights though none was answered, which the
  functions modelled allow.
- A DTLS message number exactly seven ahead of the read position passes the filter of
  `d1_both.cc:380-382` and is then an error rather than ignored (`d1_both.cc:267-271`): `ReceiverSpec.IgnoredExactly`,
  `RecordIgnoredExactly` and the input of `SevenAheadFails`.
- After a sealing error, `send_flight` leaves its cursor past records that were sealed but are in no packet; its
  contract keeps these apart as `lost`, and says that the packets cover what the cursor passed if and only if there are none.
  A failed write restores the cursor.
- Doubling the timeout wraps for durations from 2^31 on: `RetransmitTimer.DoubledIsCapped`.
- A static string must be shorter than its field to be read back, although a full one is written:
  `PbBounds.RoundTripExact`, and `PbLimits.FullStringRefused` for an input.
- A varint of 38 bytes or more can be read as a number other than its digits say, because the position of the digit
  wraps: `VarintAny.WrapsAround`; up to 37 bytes `VarintAny.Decode32Any` says exactly what is read.
- In read epoch 1 a genuine record of any message but the current one ends the handshake: `TransportProgress.FailsExactly`.
- Required fields after the 64th are not checked: `PbRequired.RequiredExact`, and `PbLimits.RequiredMissed` for inputs.
- A server can echo a type that the client sent other than as a custom extension, such as a GREASE value, and the client
  then refuses it: `CustomExtensions.EchoAccepted` and `ForeignTypeRefused`.

## Model

| member | source | states |
|---|---|---|
| `Transport.DeliveredIsPrefix` | iOS/Pods/BoringSSL-GRPC/ssl/d1_both.cc:297-438 | over every run of queueing, sealing from the current flight, loss, duplication, reordering, forging, reading and key changes on both sides that queues at most 65,536 messages, the messages taken with get_message and next_message are a prefix of those queued: same types and bytes, in order, each once |
| `TransportLimit.DeliveryLimit` | iOS/Pods/BoringSSL-GRPC/ssl/d1_both.cc:426-438 | that prefix property holds of all runs with at most n queued messages if and only if n is at most 65,536 |
| `TransportLimit.LostFlights` | iOS/Pods/BoringSSL-GRPC/ssl/d1_both.cc:434-437 | a run that queues 65,537 messages, one flight each: all records but the last are lost, and message 65,536, with wire number 0, is handed out as the first message |
| `Transport.DeliveredFromOneEpoch` | iOS/Pods/BoringSSL-GRPC/ssl/d1_both.cc:408-457 | in every reachable state a message that was handed out is complete, and its bytes all came from one read epoch |
| `Transport.RunKeepsValid` | iOS/Pods/BoringSSL-GRPC/ssl/d1_both.cc:297-457 | every run keeps the receiver and sender invariants, the agreement of every partial message with the queued message of its number, and that each message begun or handed out came in a record the window has passed |
| `Transport.StepKeepsValid` | iOS/Pods/BoringSSL-GRPC/ssl/d1_both.cc:297-457 | one event of any kind keeps them |
| `Transport.NextIsNextQueued` | iOS/Pods/BoringSSL-GRPC/ssl/d1_both.cc:408-438 | what get_message answers when the message at the read position is complete is the next one queued |
| `Transport.GetIsNextQueued` | iOS/Pods/BoringSSL-GRPC/ssl/d1_both.cc:408-424 | over every run within 65,536 messages: whenever get_message hands out a message, it is the next one queued after those already taken, type and body |
| `Transport.ParseGenuine` | iOS/Pods/BoringSSL-GRPC/ssl/d1_both.cc:700-716 | the payload sealed for part of a message parses to exactly that part, with the offset, length, type and number of the message |
| `Transport.Chain` | iOS/Pods/BoringSSL-GRPC/ssl/d1_both.cc:555-594 | from any record of message m that the current key opens there follow, when m + 7t has been handed out, records of messages m + 7, m + 14, ... with rising numbers, since a message is sealed only while it is in the flight |
| `Transport.StaleAfterLast` | iOS/Pods/BoringSSL-GRPC/ssl/dtls_record.cc:140-150 | once all 65,536 numbers have been handed out, every record of the first messages that the current key opens lies below the replay window |
| `Transport.SealingIsRun` | iOS/Pods/BoringSSL-GRPC/ssl/d1_both.cc:644-827 | whatever sequence of records a sender seals and numbers it uses up is a run of the network model |
| `Sending.QueueMessageKeepsValid` | iOS/Pods/BoringSSL-GRPC/ssl/d1_both.cc:555-594 | queueing a message, with the flight dropped when it is complete, keeps the sender invariant |
| `Sending.SealKeepsValid` | iOS/Pods/BoringSSL-GRPC/ssl/d1_both.cc:644-734 | sealing a record for a message of the flight keeps the sender invariant: genuine contents, rising numbers, and records of a message before those of any message seven further on, under no later key |
| `Sending.NextKeyKeepsValid` | iOS/Pods/BoringSSL-GRPC/ssl/dtls_method.cc:97-107 | so does a write-key change |
| `TransportFlight.FlightDelivered` | iOS/Pods/BoringSSL-GRPC/ssl/d1_both.cc:297-438 | when the records of one pass over the flight arrive under their key, in any order and with any repetition, among records of messages already read or further on, none left behind by the replay window, none of them ends the handshake and every message not read before is complete; when the flight holds all that is not yet delivered, reading then hands out all that was queued |
| `TransportFlight.ArriveAll` | iOS/Pods/BoringSSL-GRPC/ssl/dtls_record.cc:177-272 | each of such records that is wanted is put in its place at its first arrival, none fails, and nothing received is lost |
| `TransportProgress.ArriveOne` | iOS/Pods/BoringSSL-GRPC/ssl/d1_both.cc:297-406 | a genuine record of an old, current or later message is discarded exactly when the window says so, and otherwise succeeds: it is put in its place when its message is within the ring, and leaves the ring alone when not |
| `TransportProgress.FailsExactly` | iOS/Pods/BoringSSL-GRPC/ssl/d1_both.cc:297-406 | in every reachable state, a genuine handshake record within the length limits ends the handshake if and only if the window lets it pass and its message is exactly seven ahead of those handed out, or other than the current one in epoch 1; retransmissions of messages already read do not, and leave the ring unchanged |
| `TransportProgress.PayloadOfMany` | iOS/Pods/BoringSSL-GRPC/ssl/d1_both.cc:348-404 | a payload of several fragments is taken in like these one after the other |
| `TransportProgress.CcsTaken` | iOS/Pods/BoringSSL-GRPC/ssl/d1_both.cc:319-338 | a genuine ChangeCipherSpec record becomes pending when it arrives before the first key change; open_change_cipher_spec takes it, now or later, and clears it |
| `TransportFlight.MessageCompletes` | iOS/Pods/BoringSSL-GRPC/ssl/d1_both.cc:348-402 | a message all of whose fragments of one pass have been put in place is complete, as it was queued |
| `TransportFlight.HandOutAll` | iOS/Pods/BoringSSL-GRPC/ssl/d1_both.cc:408-438 | messages that are complete in the ring are handed out one after the other, and nothing else changes |
| `TransportFlight.KeyChangeAfterAll` | iOS/Pods/BoringSSL-GRPC/ssl/dtls_method.cc:81-95 | once all that was queued has been handed out, the read key changes unless a ChangeCipherSpec is pending |
| `TransportProgress.WindowStandsForSet` | iOS/Pods/BoringSSL-GRPC/ssl/dtls_record.cc:155-175 | in every run the window of the receiver stands for a set of record numbers |
| `TransportProgress.CoveredIsComplete` | iOS/Pods/BoringSSL-GRPC/ssl/d1_both.cc:348-402 | fragments of queued messages in any order and with any repetition are all accepted, and a message they cover from end to end is then complete and equal to the one queued |
| `TransportProgress.AcceptAll` | iOS/Pods/BoringSSL-GRPC/ssl/d1_both.cc:348-402 | accepting any list of such fragments leaves every position that one of them covers filled in |
| `TransportProgress.TilesCover` | iOS/Pods/BoringSSL-GRPC/ssl/d1_both.cc:692-733 | every position of a message is covered by a fragment of one pass of the sender |
| `ReplayWindow.AcceptedOnce` | iOS/Pods/BoringSSL-GRPC/ssl/dtls_record.cc:225-259 | over any sequence of arrivals the window stands for the set of accepted numbers, and no record number is accepted twice in an epoch |
| `ReplayWindow.DiscardedIffSeenOrStale` | iOS/Pods/BoringSSL-GRPC/ssl/dtls_record.cc:140-150 | a number is discarded if and only if it has been recorded or lies 64 or more below the largest recorded one |
| `ReplayWindow.RecordAdds` | iOS/Pods/BoringSSL-GRPC/ssl/dtls_record.cc:155-175 | recording a number turns a window that stands for a set into one that stands for the set with that number |
| `ReplayWindow.ReplayBitmap.ShouldDiscard` | iOS/Pods/BoringSSL-GRPC/ssl/dtls_record.cc:140-150 | the answer computed on the eight big-endian bytes of the record is that of the window |
| `ReplayWindow.ReplayBitmap.Record` | iOS/Pods/BoringSSL-GRPC/ssl/dtls_record.cc:155-175 | shifting and setting bits leaves the window with the number recorded |
| `ReplayWindow.ToU64BE` | iOS/Pods/BoringSSL-GRPC/ssl/dtls_record.cc:128-136 | the loop over eight bytes yields the number they write in big-endian |
| `HandshakeFragment.ParseSerialize` | iOS/Pods/BoringSSL-GRPC/ssl/d1_both.cc:459-473 | parsing what the sender lays out for a header and a body gives back the header, the body and the bytes that follow, for all values that fit their widths |
| `HandshakeFragment.ParsedExactly` | iOS/Pods/BoringSSL-GRPC/ssl/d1_both.cc:459-473 | bytes parse to a header, body and rest if and only if they are the serialisation of that header and body followed by the rest |
| `Reassembly.BitRangeBit` | iOS/Pods/BoringSSL-GRPC/ssl/d1_both.cc:203-205 | bit k of bit_range(start, end) is set if and only if start <= k < end |
| `Reassembly.MarkRange` | iOS/Pods/BoringSSL-GRPC/ssl/d1_both.cc:218-235 | marking a range adds exactly its positions to the mask and leaves all other bits, padding included, as they were |
| `Reassembly.IsComplete` | iOS/Pods/BoringSSL-GRPC/ssl/d1_both.cc:237-250 | the byte-wise check succeeds if and only if every position of the message is marked |
| `Reassembly.HmFragment.constructor` | iOS/Pods/BoringSSL-GRPC/ssl/d1_both.cc:152-199 | a new message has no byte in, a mask with one bit for each position, and is complete at once when it has no bytes |
| `Reassembly.HmFragment.Mark` | iOS/Pods/BoringSSL-GRPC/ssl/d1_both.cc:211-251 | after marking, position i is in if and only if it was or lies in the range; the mask is released exactly when every position is in |
| `Reassembly.HmFragment.CompleteIffNoMask` | iOS/Pods/BoringSSL-GRPC/ssl/d1_both.cc:255-259 | the mask is gone if and only if the message is complete |
| `Reassembly.HmFragment.Receive` | iOS/Pods/BoringSSL-GRPC/ssl/d1_both.cc:393-402 | a fragment body is copied to its place and its positions are marked: the message as seen from outside has exactly those bytes put in |
| `ReceiverSpec.SlotMatches` | iOS/Pods/BoringSSL-GRPC/ssl/d1_both.cc:265-295 | in a valid ring the slot of an acceptable message number is free or holds that very number, so the assertion on the number never fails |
| `ReceiverSpec.AcceptFragmentKeepsValid` | iOS/Pods/BoringSSL-GRPC/ssl/d1_both.cc:360-402 | a fragment keeps the ring invariant: slot i holds a number that is i modulo the ring size and within the ring size of the read position, with bytes of the current epoch only |
| `ReceiverSpec.AcceptFragmentsKeepValid` | iOS/Pods/BoringSSL-GRPC/ssl/d1_both.cc:348-404 | so does a record full of fragments |
| `ReceiverSpec.NextMessageKeepsValid` | iOS/Pods/BoringSSL-GRPC/ssl/d1_both.cc:426-438 | so does moving on to the next message, also past the last 16-bit number |
| `ReceiverSpec.SetReadStateKeepsValid` | iOS/Pods/BoringSSL-GRPC/ssl/dtls_method.cc:81-95 | so does a read-key change, which is refused while any other message or a pending ChangeCipherSpec is left over |
| `ReceiverSpec.IgnoredExactly` | iOS/Pods/BoringSSL-GRPC/ssl/d1_both.cc:380-382 | a fragment of a message outside the ring, read before or too far ahead, is ignored if and only if it is not exactly seven ahead of the read position |
| `ReceiverSpec.RecordIgnoredExactly` | iOS/Pods/BoringSSL-GRPC/ssl/d1_both.cc:297-406 | a record with such a fragment ends in an error exactly seven ahead, and is otherwise accepted without effect on the ring |
| `ReceiverSpec.SevenAheadFails` | iOS/Pods/BoringSSL-GRPC/ssl/d1_both.cc:267-271 | a first record with a fragment of message 7 ends the handshake in an error |
| `ReceiverSpec.AcceptedExactly` | iOS/Pods/BoringSSL-GRPC/ssl/d1_both.cc:360-402 | a fragment is refused if and only if it is out of bounds or too long, not of the current message in epoch 1, exactly seven ahead, or of another type or length than what the ring has of its message; refused or outside the ring, it changes nothing |
| `ReceiverSpec.AcceptedPut` | iOS/Pods/BoringSSL-GRPC/ssl/d1_both.cc:384-402 | accepted within the ring it is put in its place, byte by byte, unless its message is complete; all other slots and state stay |
| `ReceiverSpec.HandedOutExactly` | iOS/Pods/BoringSSL-GRPC/ssl/d1_both.cc:408-424 | get_message hands out a message if and only if every byte of the current one is in; it has the type, the length and every byte of it |
| `ReceiverSpec.OpenedExactly` | iOS/Pods/BoringSSL-GRPC/ssl/dtls_record.cc:177-272 | a record is processed if and only if it is well formed, of the current epoch, opens, and has a number neither used nor 64 behind; only then is its number remembered, and anything else, such as a forged record, leaves the state as it was |
| `ReceiverSpec.PendingExactly` | iOS/Pods/BoringSSL-GRPC/ssl/d1_both.cc:319-338 | a ChangeCipherSpec is pending after a record if and only if one was, or the record is a genuine unencrypted one |
| `ReceiverSpec.TakenExactly` | iOS/Pods/BoringSSL-GRPC/ssl/d1_both.cc:475-490 | open_change_cipher_spec succeeds if and only if one is pending, before or by this record, and takes it |
| `ReceiverSpec.OtherTypesFail` | iOS/Pods/BoringSSL-GRPC/ssl/d1_both.cc:306-346 | which records of other types are discarded, accepted or an error; none of them touches the ring |
| `ReceiverSpec.KeyChangesExactly` | iOS/Pods/BoringSSL-GRPC/ssl/dtls_method.cc:81-95 | the read key changes if and only if no ChangeCipherSpec is pending and the ring holds no message but one that was handed out; the next epoch then starts with an empty window |
| `Receiver.Connection.GetIncomingMessage` | iOS/Pods/BoringSSL-GRPC/ssl/d1_both.cc:265-295 | finds or makes the place of a message in the ring as the specification says, or refuses it and changes nothing |
| `Receiver.Connection.OpenRecord` | iOS/Pods/BoringSSL-GRPC/ssl/dtls_record.cc:177-272 | the state and outcome of opening a record, window update included, are those of the specification |
| `Receiver.Connection.AcceptFragment` | iOS/Pods/BoringSSL-GRPC/ssl/d1_both.cc:360-402 | one turn of the fragment loop does to ring, buffers and masks what the specification does to values |
| `Receiver.Connection.AcceptFragments` | iOS/Pods/BoringSSL-GRPC/ssl/d1_both.cc:348-404 | the fragment loop does so for a whole payload |
| `Receiver.Connection.OpenHandshake` | iOS/Pods/BoringSSL-GRPC/ssl/d1_both.cc:297-406 | the whole of dtls1_open_handshake refines its specification |
| `Receiver.Connection.OpenChangeCipherSpec` | iOS/Pods/BoringSSL-GRPC/ssl/d1_both.cc:475-490 | the whole of dtls1_open_change_cipher_spec refines its specification |
| `Receiver.Connection.IsCurrentComplete` | iOS/Pods/BoringSSL-GRPC/ssl/d1_both.cc:255-259 | true if and only if every byte of the message at the read position is in |
| `Receiver.Connection.GetMessage` | iOS/Pods/BoringSSL-GRPC/ssl/d1_both.cc:408-424 | hands out the type and body of the current message exactly when it is complete |
| `Receiver.Connection.NextMessage` | iOS/Pods/BoringSSL-GRPC/ssl/d1_both.cc:426-438 | frees the slot and moves the 16-bit read position on by one |
| `Receiver.Connection.HasUnprocessedData` | iOS/Pods/BoringSSL-GRPC/ssl/d1_both.cc:440-457 | true if and only if a ChangeCipherSpec is pending or some slot other than that of a message handed out is occupied |
| `Receiver.Connection.SetReadState` | iOS/Pods/BoringSSL-GRPC/ssl/dtls_method.cc:81-95 | refuses with leftover data and changes nothing, else starts the next epoch with an empty window |
| `Sender.Connection.AddOutgoing` | iOS/Pods/BoringSSL-GRPC/ssl/d1_both.cc:555-594 | appends the message with the write epoch of the moment, after dropping a flight that was complete; fails exactly when the flight is full or the data exceeds 32 bits |
| `Sender.Connection.AddMessage` | iOS/Pods/BoringSSL-GRPC/ssl/d1_both.cc:511-537 | a type and body become one whole serialised message with the next 16-bit number, as the queueing step of Sending says |
| `Sender.Connection.AddChangeCipherSpec` | iOS/Pods/BoringSSL-GRPC/ssl/d1_both.cc:600-602 | queues a ChangeCipherSpec without using up a message number |
| `Sender.Connection.SealRecord` | iOS/Pods/BoringSSL-GRPC/ssl/dtls_record.cc:294-351 | a record is sealed if and only if the AEAD answers, its ciphertext fits the space and 16 bits, and the number does not wrap; it bears the epoch chosen and the number that was next there, and uses that number up; short of a wrap this is the sealing step of Sending |
| `Sender.SequenceUpdate` | iOS/Pods/BoringSSL-GRPC/ssl/tls_record.cc:154-163 | the carry loop adds one to a big-endian number, and fails exactly when it wraps to zero |
| `Sender.Connection.UseSequence` | iOS/Pods/BoringSSL-GRPC/ssl/dtls_record.cc:329-336 | the next number of the epoch chosen is used up, and only a wrap refuses it |
| `SenderSpec.NumberUsed` | iOS/Pods/BoringSSL-GRPC/ssl/dtls_record.cc:294-351 | using up the next number of the current or of the previous epoch keeps all numbers rising within each epoch |
| `SenderSpec.RecordNumbersDistinct` | iOS/Pods/BoringSSL-GRPC/ssl/dtls_record.cc:294-351 | so no two records share an epoch and a number |
| `Sender.Connection.SetWriteState` | iOS/Pods/BoringSSL-GRPC/ssl/dtls_method.cc:97-107 | a write-key change opens the next epoch at number zero and keeps the previous numbers, rising, until the 16-bit epoch wraps |
| `Sender.Connection.SealNextMessage` | iOS/Pods/BoringSSL-GRPC/ssl/d1_both.cc:644-734 | a sealed record carries exactly the next bytes of the message under the cursor, in the epoch in which it was queued; no progress is reported exactly when not one byte fits |
| `Sender.Connection.SealNextFragment` | iOS/Pods/BoringSSL-GRPC/ssl/d1_both.cc:672-733 | the fragment takes the rest of the message, or all the room there is when that is less |
| `Sender.RoomIsEnough` | iOS/Pods/BoringSSL-GRPC/ssl/d1_both.cc:665-695 | the space below which no progress is made is exactly what one byte of the message takes, whatever the AEAD adds |
| `Sender.Connection.SealForFlight` | iOS/Pods/BoringSSL-GRPC/ssl/d1_both.cc:721-724 | with room for the overhead, sealing for the message under the cursor fails only by the AEAD, a wrapped number or a record beyond 16 bits of length; it is a step that Sending allows |
| `Sender.Connection.SealNextPacket` | iOS/Pods/BoringSSL-GRPC/ssl/d1_both.cc:739-780 | the records of a packet carry exactly what lies between the old and the new cursor, fit the space given and leave no room for anything more of the flight; it fails only for want of room, of keys or of an AEAD answer; the cursor stays if and only if not one record was sealed |
| `Sender.Connection.SendFlight` | iOS/Pods/BoringSSL-GRPC/ssl/d1_both.cc:782-827 | terminates; answers Shutdown if and only if writing is shut down, and on an open connection sends at least one packet before any answer but a sealing error with a cause of its own or a refusal by the transport; each packet fits the MTU; packets and lost records together are exactly the records sealed and carry exactly what lies between the old and the new cursor, also when a write fails and is resumed; the packets alone do so if and only if nothing is lost, which only a sealing error inside a packet brings about; and short of a wrap all of it is sealing as Sending allows |
| `Sender.Connection.SendPackets` | iOS/Pods/BoringSSL-GRPC/ssl/d1_both.cc:797-815 | its loop: every packet but the last attempt is one the transport took, and it ends blocked exactly when the transport refuses one |
| `Sender.Connection.SendTurn` | iOS/Pods/BoringSSL-GRPC/ssl/d1_both.cc:797-815 | one packet, filled up, is sealed and written, or goes back to be sealed anew exactly when the transport refuses it, or is lost to a sealing error, in which case the cursor has moved past exactly its records |
| `Sender.Connection.FlushFlight` | iOS/Pods/BoringSSL-GRPC/ssl/d1_both.cc:829-834 | the same for the first sending, which marks the flight complete |
| `Sender.Connection.RetransmitOutgoing` | iOS/Pods/BoringSSL-GRPC/ssl/d1_both.cc:836-845 | the same from the start of the flight |
| `SenderSpec.CoverTiles` | iOS/Pods/BoringSSL-GRPC/ssl/d1_both.cc:644-780 | the fragments that records from a cursor to the end of the flight carry for a message lie end to end from there to the end of the message, with its header and bytes |
| `SenderSpec.FlightFromIsWellFormed` | iOS/Pods/BoringSSL-GRPC/ssl/d1_both.cc:525-594 | every flight that was queued is made of whole messages with distinct numbers, as that result asks for |
| `SenderSpec.CoversAppend` | iOS/Pods/BoringSSL-GRPC/ssl/d1_both.cc:782-827 | covering from a to b and from b to c covers from a to c |
| `SenderSpec.CoversUnique` | iOS/Pods/BoringSSL-GRPC/ssl/d1_both.cc:782-827 | records and start determine the cursor they lead to |
| `SenderSpec.CoversMovesForward` | iOS/Pods/BoringSSL-GRPC/ssl/d1_both.cc:782-827 | every record moves the cursor strictly forward |
| `Sender.Connection.UpdateMtu` | iOS/Pods/BoringSSL-GRPC/ssl/d1_both.cc:615-632 | an MTU below the minimum is replaced by the answer of the transport when that is in range, else by the default |
| `Sender.Connection.ClearOutgoing` | iOS/Pods/BoringSSL-GRPC/ssl/d1_both.cc:500-509 | leaves an empty flight |
| `Sender.Connection.OnHandshakeComplete` | iOS/Pods/BoringSSL-GRPC/ssl/dtls_method.cc:71-79 | drops the last flight if and only if it had a reply |
| `RetransmitTimer.Backoff` | iOS/Pods/BoringSSL-GRPC/ssl/d1_lib.cc:120-187 | after k timeouts in a row, k up to 12, the duration is min(initial * 2^k, 60000) and the timer is set to the last timeout plus it, in normal form |
| `RetransmitTimer.StartSets` | iOS/Pods/BoringSSL-GRPC/ssl/d1_lib.cc:120-136 | the timer is set to exactly now plus the duration, in normal form |
| `RetransmitTimer.GetTimeoutExact` | iOS/Pods/BoringSSL-GRPC/ssl/d1_lib.cc:197-245 | the time left is exact, but zero below 15 ms and no more than INT_MAX seconds |
| `RetransmitTimer.StoppedExactly` | iOS/Pods/BoringSSL-GRPC/ssl/d1_lib.cc:162-166 | a stopped timer is not running, never expires, and starts anew with the first duration |
| `RetransmitTimer.ExpiredExactly` | iOS/Pods/BoringSSL-GRPC/ssl/d1_lib.cc:138-153 | a timer expires if and only if it runs and less than 15 ms are left |
| `RetransmitTimer.HandledExactly` | iOS/Pods/BoringSSL-GRPC/ssl/d1_lib.cc:247-267 | handle_timeout does nothing if and only if the timer has not expired; otherwise it counts, and arms the timer with the doubled duration or, beyond the limit, gives up and leaves it |
| `RetransmitTimer.DoubledIsCapped` | iOS/Pods/BoringSSL-GRPC/ssl/d1_lib.cc:155-160 | doubling yields min(2d, 60000) if and only if the 32-bit product does not wrap to something below the cap |
| `RetransmitTimer.ChecksSinceStop` | iOS/Pods/BoringSSL-GRPC/ssl/d1_lib.cc:168-187 | the k-th check since the timer was stopped succeeds if and only if k, as a 32-bit count, is at most 12 |
| `RetransmitTimer.TimeoutStep` | iOS/Pods/BoringSSL-GRPC/ssl/d1_lib.cc:247-267 | a timeout before the limit counts itself, doubles the duration and arms the timer again |
| `RetransmitTimer.Timer.Start` | iOS/Pods/BoringSSL-GRPC/ssl/d1_lib.cc:120-136 | the field updates are those of the specification |
| `RetransmitTimer.Timer.Double` | iOS/Pods/BoringSSL-GRPC/ssl/d1_lib.cc:155-160 | the field updates are those of the specification |
| `RetransmitTimer.Timer.Stop` | iOS/Pods/BoringSSL-GRPC/ssl/d1_lib.cc:162-166 | the field updates are those of the specification |
| `RetransmitTimer.Timer.CheckTimeoutNum` | iOS/Pods/BoringSSL-GRPC/ssl/d1_lib.cc:168-187 | the count, the answer and the lowered MTU are those of the specification |
| `RetransmitTimer.Timer.GetTimeout` | iOS/Pods/BoringSSL-GRPC/ssl/d1_lib.cc:197-245 | the borrow and clamp steps compute the specified answer |
| `RetransmitTimer.Timer.HandleTimeout` | iOS/Pods/BoringSSL-GRPC/ssl/d1_lib.cc:247-267 | nothing, giving up or retransmitting, as specified |
| `RefCount.Linearizable` | iOS/Pods/BoringSSL-GRPC/crypto/refcount_c11.c:37-65 | from any linearized state, over every interleaving of any number of threads and any spurious compare-and-swap failures, the calls take effect in an order that is a run of the locked count with the same results and final count; each returned call has exactly one effect |
| `RefCount.LinearizableFromStart` | iOS/Pods/BoringSSL-GRPC/crypto/refcount_c11.c:37-65 | so it is from any initial count and number of threads, for every run |
| `RefCount.StepKeepsLinearized` | iOS/Pods/BoringSSL-GRPC/crypto/refcount_c11.c:37-65 | one step of one thread keeps that |
| `RefCount.HistoryKeepsBalanced` | iOS/Pods/BoringSSL-GRPC/crypto/refcount_c11.c:37-65 | when threads drop only references they hold, the count is saturated for ever or equals the outstanding references, and no call is about to abort |
| `RefCount.LastDropReportsZero` | iOS/Pods/BoringSSL-GRPC/crypto/refcount_c11.c:49-65 | then no call aborts, and a drop reports zero if and only if it leaves nothing, being the last call to take effect; never once the count is saturated |
| `RefCount.SaturatedForever` | iOS/Pods/BoringSSL-GRPC/crypto/refcount_c11.c:41-58 | a saturated count never changes again |
| `RefCount.OutstandingMoves` | iOS/Pods/BoringSSL-GRPC/crypto/refcount_c11.c:37-65 | every move changes the outstanding references as it changes an unsaturated count |
| `RefCount.LockedRefCount.Inc` | iOS/Pods/BoringSSL-GRPC/crypto/refcount_lock.c:29-35 | adds one unless saturated |
| `RefCount.LockedRefCount.DecAndTestZero` | iOS/Pods/BoringSSL-GRPC/crypto/refcount_lock.c:37-51 | aborts at zero; else takes one off unless saturated, and tells whether zero is left |
| `Varint.DecodeEncode` | iOS/Pods/nanopb/pb_decode.c:250-270 | decoding the encoding of any 64-bit number gives it back and leaves the rest of the stream |
| `Varint.DecodeAny` | iOS/Pods/nanopb/pb_decode.c:250-270 | any encoding of up to ten bytes, canonical or not, is read as its number to 64 bits, and a longer one is refused |
| `Varint.DecodeCut` | iOS/Pods/nanopb/pb_decode.c:250-270 | bytes without an end are refused |
| `Varint.TenBytes` | iOS/Pods/nanopb/pb_encode.c:574-594 | no 64-bit number takes more than the ten bytes of the buffer |
| `Varint.Decode32Exact` | iOS/Pods/nanopb/pb_decode.c:182-242 | on canonical encodings of 64-bit numbers the 32-bit decoder returns the low 32 bits of the numbers below 2^32 and of those from 2^63 on that look like a sign extension digit by digit, and refuses all others, among them all of [2^32, 2^63) |
| `Varint.Decode32SignExtended` | iOS/Pods/nanopb/pb_decode.c:216-225 | every sign-extended negative 32-bit number is returned as its low 32 bits |
| `Varint.Decode32Small` | iOS/Pods/nanopb/pb_decode.c:182-242 | every number below 2^32 is returned |
| `VarintAny.Decode32Any` | iOS/Pods/nanopb/pb_decode.c:182-242 | of all encodings of up to 37 bytes exactly those are read whose first five digits are all and below 2^32, or are followed by zero digits or by the sign bits of a negative number; the value is their low 32 bits |
| `VarintAny.WrapsAround` | iOS/Pods/nanopb/pb_decode.c:207-233 | thirty-seven zero digits and a one, whose position is bit 259, are read as 8, since the bit position is an 8-bit number where `uint_fast8_t` is one |
| `Varint.ZigZagBijection` | iOS/Pods/nanopb/pb_encode.c:596-605 | the zigzag mapping and its inverse undo each other on all 64-bit numbers; n maps to 2n or -2n-1 |
| `PbRoundTrip.RoundTrip` | iOS/Pods/nanopb/pb_decode.c:901-1063 | for every well-formed field list and every struct within its bounds, pb_encode succeeds and pb_decode of what it wrote, up to the end or a zero byte, gives the struct back |
| `PbBounds.RoundTripExact` | iOS/Pods/nanopb/pb_decode.c:901-1063 | a struct survives encoding and decoding if and only if its arrays, strings and byte arrays are within their declared bounds, a string shorter than its field, and no union has two members set |
| `PbExact.WrittenExactly` | iOS/Pods/nanopb/pb_encode.c:494-516 | pb_encode reports an error of its own if and only if some array has more entries, or some byte array more bytes, than its field holds, at any depth |
| `PbLimits.FullStringRefused` | iOS/Pods/nanopb/pb_decode.c:1428-1461 | a one-character string from a one-byte field is written as 0A 01 41 and refused on decoding |
| `PbLimits.FirstFieldsSuffice` | iOS/Pods/nanopb/pb_decode.c:985-1046 | a message with only the first fields of a list is accepted, the others holding their defaults, when these have the first 64 required ones |
| `PbLimits.RequiredMissed` | iOS/Pods/nanopb/pb_decode.c:985-1046 | of n required fields, a message with the first m is accepted for every m from 64 on |
| `PbBounds.DecodedWithinBounds` | iOS/Pods/nanopb/pb_decode.c:401-475 | whatever the bytes, a struct that pb_decode fills in is within those bounds |
| `PbBounds.ReencodedSame` | iOS/Pods/nanopb/pb_encode.c:494-516 | whatever message was accepted, encoding the struct it filled in succeeds and decodes to the same struct |
| `PbEncoder.BufferRoundTrip` | iOS/Pods/nanopb/pb_encode.c:494-516 | what a successful pb_encode leaves in its buffer, pb_decode reads back as the same struct |
| `PbRoundTrip.StructBack` | iOS/Pods/nanopb/pb_decode.c:901-1049 | decoding the encoding of a struct at any depth, into defaults, gives it back |
| `PbRoundTrip.FieldBack` | iOS/Pods/nanopb/pb_decode.c:933-997 | what one field adds to a message takes a struct whose earlier fields are set one field on |
| `PbRoundTrip.ItemBack` | iOS/Pods/nanopb/pb_decode.c:1289-1507 | an item of any type, submessages included, is read back with the rest of the stream left |
| `PbRoundTrip.ScalarBack` | iOS/Pods/nanopb/pb_decode.c:1289-1461 | so is an item of each type but submessages, negative and narrow integers included |
| `PbRoundTrip.TaggedItemsBack` | iOS/Pods/nanopb/pb_decode.c:451-459 | entries with a tag each, of numbers too, are added in order to those the array holds |
| `PbRoundTrip.PackedBack` | iOS/Pods/nanopb/pb_decode.c:420-448 | packed entries are added in order to those the array holds |
| `PbRepeated.RunsBack` | iOS/Pods/nanopb/pb_decode.c:418-459 | any mix of packed and single entries, read into an array that holds some already, is added in order if all of them fit, and otherwise the message is refused |
| `PbRepeated.RunBack` | iOS/Pods/nanopb/pb_decode.c:418-459 | so it is of one packed run, and of one row of single entries |
| `PbRepeated.PackedGarbage` | iOS/Pods/nanopb/pb_decode.c:420-448 | a packed run with bytes after its entries that are no entry is refused |
| `PbRoundTrip.DefaultBack` | iOS/Pods/nanopb/pb_encode.c:215-303 | a proto3 field that the zero check leaves out holds the default |
| `PbExact.LeftOutExactly` | iOS/Pods/nanopb/pb_encode.c:215-303 | a proto3 singular field is left out if and only if it holds the default and its type has one: no required field and no bytes of fixed length anywhere in it |
| `PbExact.DefaultIsZero` | iOS/Pods/nanopb/pb_decode.c:812-895 | the struct decoding starts from holds zeros, nothing in arrays and strings, and no optional field, at every depth |
| `PbRoundTrip.Encodable` | iOS/Pods/nanopb/pb_encode.c:494-516 | a struct within its bounds is written without an error |
| `PbRoundTrip.AllSeen` | iOS/Pods/nanopb/pb_decode.c:988-993 | after all fields of a struct, every tracked required index has been met |
| `PbBounds.FieldBounds` | iOS/Pods/nanopb/pb_decode.c:401-475 | decoding a field leaves its value within bounds |
| `PbBounds.StoreStorable` | iOS/Pods/nanopb/pb_decode.c:461-470 | storing a member of a union takes it away from the others |
| `PbUnknown.UnknownTransparent` | iOS/Pods/nanopb/pb_decode.c:933-962 | a whole field of a tag that the list does not name, put between two fields of a message, changes neither acceptance nor the struct, whatever the struct held before |
| `PbUnknown.NestedUnknownTransparent` | iOS/Pods/nanopb/pb_decode.c:1463-1485 | the same inside a submessage, whose length grows with it, in arrays too |
| `PbUnknown.SkipExact` | iOS/Pods/nanopb/pb_decode.c:273-326 | skipping takes off the stream exactly a payload of the wire type, defined apart from the decoder, and fails if and only if there is none |
| `PbUnknown.TurnThen` | iOS/Pods/nanopb/pb_decode.c:933-997 | taking a field off a message does not depend on what follows it |
| `PbUnknown.TakeFieldsThen` | iOS/Pods/nanopb/pb_decode.c:919-997 | a run of whole fields acts on the struct the same whatever follows |
| `PbEvolution.OlderReader` | iOS/Pods/nanopb/pb_decode.c:933-962 | a reader that has any part of the fields of the writer accepts what pb_encode wrote, with the value of the writer in each field it has |
| `PbEvolution.FieldSkipped` | iOS/Pods/nanopb/pb_decode.c:949-962 | whatever is written for a field, its arrays included, is skipped whole by a reader without the field |
| `PbEvolution.ItemIsWhole` | iOS/Pods/nanopb/pb_encode.c:641-672 | what is written for an item is a key with the tag of the field and a wire type, and a payload of the form that wire type stands for |
| `PbEvolution.PackedIsWhole` | iOS/Pods/nanopb/pb_encode.c:140-181 | an array of numbers is written as one length-delimited field |
| `PbExact.UnknownExactly` | iOS/Pods/nanopb/pb_decode.c:949-962 | an unknown field is skipped if and only if what follows its key begins with a payload of its wire type; else the message is refused |
| `PbExact.CutKeyRefused` | iOS/Pods/nanopb/pb_decode.c:919-931 | a message that ends within a key is refused |
| `PbExact.BadKeyRefused` | iOS/Pods/nanopb/pb_decode.c:919-931 | so is one with a key that is no 32-bit number |
| `PbExact.IntItemExact` | iOS/Pods/nanopb/pb_decode.c:1289-1372 | a number its field cannot hold is refused, never cut down; a signed field of up to 32 bits stands for the low 32 bits |
| `PbExact.DelimitedItemExact` | iOS/Pods/nanopb/pb_decode.c:1391-1507 | bytes or characters that do not fit their field are refused, never cut short to fit (a string ends at a zero byte in it); a fixed-length field takes its length or nothing, which stands for zeros |
| `PbExact.LastWins` | iOS/Pods/nanopb/pb_decode.c:401-475 | for a singular field that comes twice, the last counts, in a union for submessages too |
| `PbExact.PartsMerge` | iOS/Pods/nanopb/pb_decode.c:1463-1485 | a submessage that comes in two accepted parts is merged as if they had come in one |
| `PbRequired.RequiredExact` | iOS/Pods/nanopb/pb_decode.c:985-1046 | when every field decodes, the message is accepted if and only if each required field of the list, but for those after the first 64, is among the fields it has |
| `PbRequired.SeenIffTaken` | iOS/Pods/nanopb/pb_decode.c:988-993 | an index is marked if and only if a field with that required index was taken |
| `PbRequired.AllMarked` | iOS/Pods/nanopb/pb_decode.c:1027-1045 | the check of whole words and of the bits left over succeeds if and only if all of the first count bits are set |
| `PbRequired.MarkAdds` | iOS/Pods/nanopb/pb_decode.c:991-992 | shifting and or-ing into the two words adds exactly the index to the set |
| `PbRequired.AllOnes` | iOS/Pods/nanopb/pb_decode.c:1032-1040 | a word without higher bits equals the mask if and only if all its low bits are set |
| `PbEncoder.EncodeMessage` | iOS/Pods/nanopb/pb_encode.c:494-516 | on a buffer pb_encode succeeds if and only if counting would and what is written plus that count fits max_size, and then writes exactly those bytes; on a counting stream it adds exactly their number |
| `PbEncoder.GetEncodedSize` | iOS/Pods/nanopb/pb_encode.c:533-542 | succeeds if and only if there is an encoding, and yields its length |
| `PbEncoder.EncodeSubmessage` | iOS/Pods/nanopb/pb_encode.c:682-730 | the second pass writes as many bytes as the first counted at any depth, so "submsg size changed" cannot occur |
| `PbEncoder.EncodeArray` | iOS/Pods/nanopb/pb_encode.c:126-211 | an array is written packed or tagged as specified, refused when over its maximum, with the packed size found by formula or by a sizing stream |
| `PbEncoder.EncodePacked` | iOS/Pods/nanopb/pb_encode.c:140-181 | the size in front of a packed array is that of the items that follow |
| `PbEncoder.EncodeItems` | iOS/Pods/nanopb/pb_encode.c:155-208 | the loops write the items one after the other |
| `PbEncoder.EncodeValue` | iOS/Pods/nanopb/pb_encode.c:734-868 | each field encoder writes the specified bytes or reports an error |
| `PbEncoder.EncodeBasicField` | iOS/Pods/nanopb/pb_encode.c:307-392 | presence flags, the proto3 zero check and which_ members decide what is written |
| `PbEncoder.CheckProto3Default` | iOS/Pods/nanopb/pb_encode.c:215-303 | true if and only if the field is absent, empty or zero at every depth |
| `PbEncoder.AllFieldsDefault` | iOS/Pods/nanopb/pb_encode.c:268-279 | true if and only if every field of a submessage is |
| `PbEncoder.PackedSize` | iOS/Pods/nanopb/pb_encode.c:145-165 | a packed array of fixed-width items has four or eight bytes an item, any other at most ten |
| `PbEncoder.EncodeNullTerminated` | iOS/Pods/nanopb/pb_encode.c:523-531 | the encoding and a zero byte |
| `PbOutput.OStream.Write` | iOS/Pods/nanopb/pb_encode.c:101-119 | all or nothing: fails if and only if there is no room, and else writes or counts exactly the bytes given |
| `PbOutput.OStream.BufWrite` | iOS/Pods/nanopb/pb_encode.c:72-82 | overwrites exactly the bytes from the write position on |
| `PbOutput.OStream.EncodeVarint` | iOS/Pods/nanopb/pb_encode.c:574-594 | writes the canonical encoding |
| `PbOutput.OStream.VarintBytes` | iOS/Pods/nanopb/pb_encode.c:585-591 | the buffer loop produces the canonical encoding, within ten bytes |
| `PbOutput.OStream.EncodeSvarint` | iOS/Pods/nanopb/pb_encode.c:596-605 | writes the encoding of the zigzag mapping |
| `PbOutput.OStream.EncodeFixed32` | iOS/Pods/nanopb/pb_encode.c:607-616 | writes four little-endian bytes |
| `PbOutput.OStream.EncodeFixed64` | iOS/Pods/nanopb/pb_encode.c:619-632 | writes eight little-endian bytes |
| `PbOutput.OStream.EncodeTagForField` | iOS/Pods/nanopb/pb_encode.c:641-672 | writes the key with the wire type of the data type, which `PbEvolution.ItemIsWhole` shows to be that of what follows |
| `PbOutput.OStream.EncodeString` | iOS/Pods/nanopb/pb_encode.c:674-680 | writes a length and that many bytes |
| `PbOutput.WroteBoth` | iOS/Pods/nanopb/pb_encode.c:101-119 | two writes in a row make one write of both parts |
| `PbDecoder.DecodeMessage` | iOS/Pods/nanopb/pb_decode.c:1051-1063 | the struct and the success of pb_decode on a stream are those of the specification |
| `PbDecoder.DecodeNoinit` | iOS/Pods/nanopb/pb_decode.c:901-1049 | so are those of pb_decode_noinit, with the iterator, the two words of seen fields and the final check at work |
| `PbDecoder.DecodeTurn` | iOS/Pods/nanopb/pb_decode.c:919-997 | one turn of its loop takes one field, skips one, ends or fails as specified |
| `PbDecoder.CheckRequired` | iOS/Pods/nanopb/pb_decode.c:1006-1046 | counts the required fields from wherever the iterator stands and succeeds if and only if the first 64 have been met |
| `PbDecoder.DecodeField` | iOS/Pods/nanopb/pb_decode.c:401-475 | decode_static_field for each repetition rule |
| `PbDecoder.DecodePacked` | iOS/Pods/nanopb/pb_decode.c:420-448 | the packed loop fills the array to its maximum and refuses what is left over |
| `PbDecoder.DecodeItem` | iOS/Pods/nanopb/pb_decode.c:67-79 | the field decoder of the data type |
| `PbDecoder.DecSubmessage` | iOS/Pods/nanopb/pb_decode.c:1463-1485 | decodes within the length given and resumes after it |
| `PbDecoder.DecVarint` | iOS/Pods/nanopb/pb_decode.c:1289-1324 | casts fields of up to 32 bits to a signed 32-bit number first, then refuses what does not fit the field |
| `PbDecoder.DecUvarint` | iOS/Pods/nanopb/pb_decode.c:1326-1348 | refuses what does not fit the field |
| `PbDecoder.DecSvarint` | iOS/Pods/nanopb/pb_decode.c:1350-1372 | refuses what does not fit the field |
| `PbDecoder.DecBytes` | iOS/Pods/nanopb/pb_decode.c:1391-1426 | refuses what does not fit the field with its size |
| `PbDecoder.DecString` | iOS/Pods/nanopb/pb_decode.c:1428-1461 | refuses what does not fit the field with its terminator, the sum being taken in 32 bits |
| `PbDecoder.DecFixedLengthBytes` | iOS/Pods/nanopb/pb_decode.c:1487-1507 | takes the exact length, or nothing for all zeros |
| `PbDecoder.SetToDefaults` | iOS/Pods/nanopb/pb_decode.c:884-895 | leaves the default struct |
| `PbDecoder.SetFieldToDefault` | iOS/Pods/nanopb/pb_decode.c:812-882 | leaves the default of one field |
| `PbDecoder.DecodeDelimited` | iOS/Pods/nanopb/pb_decode.c:1080-1093 | decodes the message behind a length and leaves the rest |
| `PbInput.IStream.Read` | iOS/Pods/nanopb/pb_decode.c:100-132 | takes the bytes asked for off the stream, or fails and takes none |
| `PbInput.IStream.DecodeVarint32Eof` | iOS/Pods/nanopb/pb_decode.c:182-242 | the loop computes the specified 32-bit value, failure or end of stream |
| `PbInput.IStream.DecodeVarint` | iOS/Pods/nanopb/pb_decode.c:250-270 | the loop computes the specified 64-bit value or failure |
| `PbInput.IStream.DecodeFixed` | iOS/Pods/nanopb/pb_decode.c:1254-1286 | the bytes shifted and or-ed together are the little-endian number |
| `PbInput.IStream.DecodeSvarint` | iOS/Pods/nanopb/pb_decode.c:1240-1252 | the inverse zigzag mapping of the value read |
| `PbInput.IStream.DecodeTag` | iOS/Pods/nanopb/pb_decode.c:293-314 | field number and wire type of a key; a zero key ends the message |
| `PbInput.IStream.SkipField` | iOS/Pods/nanopb/pb_decode.c:316-326 | takes off the stream what the wire type calls for, or fails |
| `PbInput.IStream.MakeStringSubstream` | iOS/Pods/nanopb/pb_decode.c:367-380 | a substream of exactly the length read, and this stream set to what follows |
| `PbInput.IStream.CloseStringSubstream` | iOS/Pods/nanopb/pb_decode.c:382-395 | this stream resumes at the end of the substream |
| `PbIterator.FieldIter.Next` | iOS/Pods/nanopb/pb_common.c:20-76 | moves to the next field or back to the start, and keeps data address, size address and required index equal to those found from the start of the list |
| `PbIterator.FieldIter.Find` | iOS/Pods/nanopb/pb_common.c:78-95 | terminates at the first match around the list; succeeds if and only if a field with the tag that is no extension exists, else it is back where it began |
| `PbIterator.FieldIter.FindExtension` | iOS/Pods/nanopb/pb_decode.c:798-809 | the same for the extension placeholder |
| `PbIterator.FieldIter.Begin` | iOS/Pods/nanopb/pb_common.c:8-18 | sets the iterator to the first field |
| `PbIterator.AddressesOfLayout` | iOS/Pods/nanopb/pb.h:395-403 | for every list generated for a struct layout, the gaps add up to the addresses of the layout, unions included |
| `CustomExtensions.EchoAccepted` | iOS/Pods/BoringSSL-GRPC/ssl/custom_extensions.cc:63-182 | for any two registrations and any callback answers, of the custom extensions a server echoes the client accepts exactly those it offered, and any other comes from the rest of its hello; so all are accepted when that rest is of types the library handles itself |
| `CustomExtensions.ForeignTypeRefused` | iOS/Pods/BoringSSL-GRPC/ssl/custom_extensions.cc:131-144 | a GREASE type in the hello of a client without custom extensions is read and echoed by a server that registered it, and then refused |
| `CustomExtensions.Registry.Append` | iOS/Pods/BoringSSL-GRPC/ssl/custom_extensions.cc:194-241 | succeeds if and only if there is an add callback, the value is a free 16-bit one, and fewer than 16 are registered; keeps values distinct and positions within the set |
| `CustomExtensions.Find` | iOS/Pods/BoringSSL-GRPC/ssl/custom_extensions.cc:34-48 | the position of the value, if it is registered |
| `CustomExtensions.Handshake.AddHello` | iOS/Pods/BoringSSL-GRPC/ssl/custom_extensions.cc:63-125 | writes the entries of exactly the extensions asked for and included, and sets exactly their bits; fails if and only if a callback aborts or contents are too long |
| `CustomExtensions.ChosenInOrder` | iOS/Pods/BoringSSL-GRPC/ssl/custom_extensions.cc:76-122 | the entries are those of the positions asked for and included, each once, in the order of the stack |
| `CustomExtensions.Handshake.ParseServerHello` | iOS/Pods/BoringSSL-GRPC/ssl/custom_extensions.cc:131-157 | accepts if and only if the value is registered, was sent, and the callback agrees |
| `CustomExtensions.Handshake.ParseClientHello` | iOS/Pods/BoringSSL-GRPC/ssl/custom_extensions.cc:159-182 | sets the bit of a registered value and no other |
| `CustomExtensions.Handshake.ScanClientHello` | iOS/Pods/BoringSSL-GRPC/ssl/t1_lib.cc:3047-3078 | in a hello without repeated types the assertion that a bit is not set yet never fails, and afterwards the bits tell which registered types the hello has |
| `TlsExtensions.ParseExtensions` | iOS/Pods/BoringSSL-GRPC/ssl/handshake.cc:224-273 | presence, contents, success and alert are those of the specification |
| `TlsExtensions.AcceptedExactly` | iOS/Pods/BoringSSL-GRPC/ssl/handshake.cc:233-270 | a block is accepted if and only if it is well formed, known types occur at most once, and unknown types occur only when ignored |
| `TlsExtensions.FirstProblem` | iOS/Pods/BoringSSL-GRPC/ssl/handshake.cc:233-270 | the alert is that of the first entry that is malformed, unknown where unknown ones are not ignored, or a known type for the second time |
| `TlsExtensions.ReportExactly` | iOS/Pods/BoringSSL-GRPC/ssl/handshake.cc:224-273 | each known type is reported with exactly the contents the block has for it, or as absent |
| `TlsExtensions.OrderIndependent` | iOS/Pods/BoringSSL-GRPC/ssl/handshake.cc:233-270 | any reordering of the entries of an accepted block is accepted with the same result |
| `TlsExtensions.BlockRoundTrip` | iOS/Pods/BoringSSL-GRPC/ssl/handshake.cc:233-242 | a block parses to a list of entries if and only if it is what that list is written as |

## Left out

- Transport.DeliveredIsPrefix: covers up to 65,536 messages on a connection, because it fails beyond (`TransportLimit.DeliveryLimit`); runs are those in which no 48-bit record number wraps, and a handshake or ChangeCipherSpec record opens only under the key, epoch and number it was sealed with.
- TransportFlight.FlightDelivered: asks that records arrive under one read key and before the window has moved 64 past them, because later ones are discarded.
- PbRoundTrip.RoundTrip: asks that the encoding be shorter than 4 GiB, because lengths on the wire are read as 32-bit numbers.
- PbEncoder.EncodeMessage: asks that no submessage take 2^64 bytes, because `size_t` does not wrap in the model.
- PbDecoder.DecodeNoinit: the destination struct is a value that is passed in and out, so writes through pointers into C memory, padding and what a failed call leaves behind are not modelled; a string is the characters before its terminator, so what follows an embedded zero is dropped.
- PbIterator.FieldIter.Next: addresses are unbounded integers, with `sizeof(void *)` taken as 8.
- RefCount.Linearizable: memory is sequentially consistent, as the default ordering of the C11 operations asks for.
- CustomExtensions.Handshake.ScanClientHello: that a hello with repeated types is refused first (`t1_lib.cc:152-201`) is its precondition; failing parsers of built-in extensions and the case of SSL 3.0 are not modelled.
- Receiver.Connection.OpenRecord: the AEAD is symbolic (a record opens to the payload it was sealed from, or not at all), and the checks on read shutdown, empty input, aliasing buffers and the count of bytes consumed are not modelled; each datagram record is handed in by itself.
- Receiver.Connection.NextMessage: that a reply to the flight is noted is in `Sender.Connection.NoteReply`, because the two sides are separate objects here.
- Sender.Connection.AddOutgoing: stopping the timer and adding to the transcript are not part of it.
- Sender.Connection.FlushFlight: starting the timer is not part of it; `RetransmitTimer.Timer.Start` models that.
- Sender.Connection.OnHandshakeComplete: stopping the timer is not part of it; `RetransmitTimer.Timer.Stop` models that.
- Sender.Connection.SealRecord: what the AEAD does with each record is a given function, free to fail or to add any number of bytes up to its overhead; record version bytes and buffer aliasing checks are not modelled.
- Sender.Connection.SendFlight: whether the transport takes each packet and flush is a given function; short writes, the transcript and message callbacks are not modelled.
- VarintAny.Decode32Any: covers encodings of up to 37 bytes, because it fails beyond (`VarintAny.WrapsAround`).
- PbExact.BadKeyRefused: covers keys of up to 37 bytes for the same reason.
- PbDecoder.DecodeTurn: fixed-count arrays and extension fields are outside well-formed field lists here, so their bookkeeping is absent.
- PbEncoder.EncodeArray: arrays behind pointers are outside the model, although the build allows them.
- PbEncoder.EncodeBasicField: fields behind pointers and callback fields are outside the model.
- PbEncoder.CheckProto3Default: fields behind pointers and callback fields are outside the model.
- PbDecoder.DecBytes: the branch that allocates memory is absent.
- PbDecoder.DecString: the branch that allocates memory is absent, and what follows an embedded zero is dropped.
- PbDecoder.SetFieldToDefault: defaults given in a schema, pointers and extensions are absent.
- PbInput.IStream.Read: streams with a callback of their own are not modelled.
- nanopb callbacks, extensions, pointer fields, `PB_ENABLE_MALLOC`, `PB_WITHOUT_64BIT` and fixed-count arrays: outside well-formed field lists here; the error paths they need are absent.
- Default values given in a schema: every default is zero or empty; proto2 defaults only change the starting struct.
- Repeated tags in one field list: generated lists have none; the iterator itself is modelled without that restriction.
- Memory allocation failure, error strings, alert codes other than those of `ssl_parse_extensions`, and logging.
- AEAD encryption, transcript hashing, certificates, sessions, `ssl_run_handshake` and the built-in TLS extensions: their state machines are not part of this model.
- Retransmission timers are not run together with sender and receiver: the state machine of `Transport` lets retransmission happen at any time instead.
- The iOS and Android application code: user interface and calls into SDKs.
