# Transport, codec and handshake models

This project models the C and C++ code that the app ships with its networking stack, in Dafny, and proves what that
code is for. Imperative code is modelled as classes and loops and proved against functions; the functions carry the
theorems.

## What is modelled

**DTLS handshake transport** (`ReplayWindow`, `Reassembly`, `DtlsReceiver`, `DtlsWriter`, `DtlsSender`,
`DtlsTransfer`, `DtlsEndpoint`, `DtlsEndToEnd`). The sender cuts a flight of handshake messages into fragments that
fit a packet, keeps a cursor so that it can stop and resume, and rewinds to retransmit. The receiver drops replayed
records with a 64-bit window, marks the bytes it has with a bit mask and buffers up to seven messages in a ring.
`DtlsEndpoint` puts the record layer and the receiver together and is proved to take the steps that the theorems are
about. `DtlsTransfer.DeliversOnlyWhatWasSent` is safety for all runs, with any loss, repetition and reordering, and
with forgeries that do not authenticate. `DtlsEndToEnd.FlightIsTransferred` is completeness, for any fragmentation
into records within the plaintext limit and any number of passes and flights (sections 4.1.2.6, 4.2.3 and 4.2.6 of RFC
6347): everything is delivered if and only if each byte that was missing came in some record, of any pass, that
arrived in its epoch and not after one 64 numbers ahead. `DtlsEndToEnd.SenderIsSafe` and
`DtlsEndToEnd.SenderTransfers` say the same of whatever the sender has sent, and `DtlsEndToEnd.OnePassTransfers` that
one pass in time is enough.

**nanopb** (`PbVarint`, `PbSpec`, `PbScalars`, `PbWire`, `PbRoundTrip`, `PbUnknown`, `PbReader`, `PbOccurrences`,
`PbExact`, `PbDecoded`, `PbMissing`, `PbIter`, `PbRequired`, `PbEncode`, `PbDecode`, `PbCodec`). `PbSpec` says what
encoder and decoder compute on descriptors and messages as values; `PbEncode` and `PbDecode` are the streams,
substreams, iterators and loops that compute it. The main theorems are the round trip for every nesting
(`PbRoundTrip.MessageRoundTrip`, `PbCodec.StoreAndLoad`), transparency for unknown fields, a reader that lacks any
fields of the writer (`PbReader.ReaderLacksFields`), arrays and submessages that come in any number of occurrences
(`PbOccurrences`), and that sizing equals writing. `PbWire` and `PbExact` say in literal terms what is on the wire and
what each decoder accepts. The configuration is the one with 32-bit field sizes.

**TLS outbound bytes** (`SslBuffer`, `TlsWriter`). Two queues, the write buffer and the pending flight, feed a
transport that may write short or fail at any call. `TlsWriter.Run` and `TlsWriter.WriteAll` state order and
conservation over every interleaving; `TlsWriter.Writer.FlushFlight`, `DoWrite` and `WriteAppData` also say exactly
what the transport takes and when they succeed.

**TLS 1.2 server** (`CipherChoice`, `ServerHandshake`). The cipher loop is proved optimal. The step machine is proved
to hash every message once before releasing it, to terminate, and to finish only after both Finished messages (section
7.3 of RFC 5246), and after a CertificateVerify if and only if the client has sent a certificate. It is also proved to
get on: if nothing fails, it stops only for a message that has not come or one that the client may not send.

`Bits` and `Bytes` hold the C operators on unsigned integers and byte strings.

## How the environment appears

- The AEAD is a function with bounded overhead; signature checks, callbacks, parsers and allocation are arbitrary
  answers (`ServerHandshake.Env`, `TlsWriter.Writer.seal`), and the Finished MAC is an arbitrary function of the
  transcript.
- A transport is a script of results; it may take any part of what it is offered, or fail.
- The addresses that an allocator returns are an arbitrary function, because alignment depends on them; the memory it
  returns is zero.

## Where the code does not do what one might expect

- **Window of seven.** A fragment exactly seven messages ahead passes the first window check of `dtls1_open_handshake`
  and is then refused with a fatal alert, while one eight ahead is ignored (`DtlsReceiver.FatalExactlyWhen`).
- **Reordering by 64 records.** A record that arrives after one of its epoch whose number is 64 or more higher, or in
  another epoch, is dropped on its first arrival (`DtlsTransfer.OpensExactly`; two records that show it:
  `DtlsTransfer.ReorderingLoses`). Only a retransmission, under a new number, brings its bytes.
- **Packets above 16 KB.** The sender makes a record whose plaintext exceeds 16384 bytes exactly when the rest of the
  message and the packet size less the overhead both do (`DtlsSender.TooLongExactly`). If its body has at most 16704
  bytes, the receiver refuses it with a fatal alert; above, it drops it silently, before decrypting
  (dtls_record.cc:197-205 and 252-257; `DtlsTransfer.OpensExactly`, `DtlsTransfer.LongBodyDropped`; an input for each:
  `DtlsEndToEnd.LargePacketEndsReading`). The transfer theorems are about senders none of whose records is of the
  first kind; records of the second kind bring nothing.
- **Sealing error in the middle of a packet.** The cursor has then moved past records that are never written. This
  happens exactly when a message behind the first one of the packet has no cipher, is malformed, or has room but no
  record number left or, in packets above 64 KB, too long a record (`DtlsSender.PacketLosesExactly`,
  `DtlsSender.SealErrorExactly`; an input: `DtlsSender.RecordLost`). A packet that the transport refuses always
  restores the cursor, and a retransmission starts over.
- **Long payloads.** Payloads of 2^32 bytes or more are written but cannot be read back
  (`PbScalars.DelimitedReadableExactly`), and so are strings that fill their buffer without a terminator
  (`PbScalars.StringReadableExactly`). The round trip therefore asks for terminated strings and encodings below 2^32
  bytes.
- **Empty descriptor.** An empty message type fails on tag 0 where every other type skips it (`PbUnknown.TagZero`).
- **Write buffer above 65529 bytes.** The offset of `SSLBuffer` has 16 bits and wraps around when a short write
  consumes the buffer up to 2^16. Every fill that ends within the first 2^16 bytes of its memory is kept whatever the
  transport does; for every fill that ends later there are contents and a short write that break it
  (`SslBuffer.ConsumeExactly`, `SslBuffer.FillThatBreaks`), and `do_ssl3_write` gets to such fills
  (`TlsWriter.TooLargeLoses`). `TlsWriter.Run` bounds what any list of events can add to a flight and so when no fill
  comes that far; the ghost field `safe` of `TlsWriter.Writer` records it.
- **Stuck write buffer.** If sealing fails after the flight has moved into the write buffer, the buffer holds data
  while no record is pending. Then every write fails, and flushing reports success without sending anything until
  there is a new flight. From an empty write buffer this happens exactly when the record has data, passes the length
  checks, the flight is not empty and sealing fails (`TlsWriter.Writer.DoWrite`; an input: `TlsWriter.StuckExample`).
  Nothing is lost or reordered, and flushing reports success with everything taken exactly if there was a flight or
  nothing to flush (`TlsWriter.Writer.FlushFlight`).
- **Early data.** `early_data_written` has 16 bits, the limit from the ticket 32. The limit is kept exactly if it is
  below 2^16 (`TlsWriter.Run`); every larger one can be exceeded (`TlsWriter.EarlyDataOverrun`).
- **Unfinished group.** If the last flag of a cipher preference list were 1, eligible ciphers of that last group would
  be passed over (`CipherChoice.Best`).

## Model

| member | source | states |
|---|---|---|
| ReplayWindow.DiscardsExactly | Dream Journal/Pods/BoringSSL-GRPC/ssl/dtls_record.cc:140-150 | a record number is discarded if and only if it was recorded before or lies 64 or more below the highest one |
| ReplayWindow.RecordRefines | Dream Journal/Pods/BoringSSL-GRPC/ssl/dtls_record.cc:155-175 | after recording a number the shifted bit map is exactly the set of recorded numbers within 64 of the maximum |
| ReplayWindow.NeverAcceptedTwice | Dream Journal/Pods/BoringSSL-GRPC/ssl/dtls_record.cc:140-175 | over any run of arriving numbers the accepted ones are pairwise distinct and none was recorded before the run |
| ReplayWindow.DropsExactly | Dream Journal/Pods/BoringSSL-GRPC/ssl/dtls_record.cc:140-175 | after any run of arrivals a number is dropped if and only if it arrived before or one at least 64 higher did |
| ReplayWindow.Bitmap.ShouldDiscard | Dream Journal/Pods/BoringSSL-GRPC/ssl/dtls_record.cc:140-153 | the check answers in terms of the set of numbers seen, both directions |
| ReplayWindow.Bitmap.Record | Dream Journal/Pods/BoringSSL-GRPC/ssl/dtls_record.cc:155-175 | the in-place shift and set of the 64-bit map adds exactly the number to the set of numbers seen |
| ReplayWindow.ToU64Be | Dream Journal/Pods/BoringSSL-GRPC/ssl/dtls_record.cc:128-138 | the loop reads eight bytes as one big-endian number |
| ReplayWindow.BigEndianInjective | Dream Journal/Pods/BoringSSL-GRPC/ssl/dtls_record.cc:128-138 | different sequence fields are different numbers, so a replay is recognised by its number |
| ReplayWindow.RecordReader.OpenRecord | Dream Journal/Pods/BoringSSL-GRPC/ssl/dtls_record.cc:177-272 | unless reading is closed, a record is opened if and only if its header parses with an accepted version, its body has at most 16704 bytes, it has the current epoch, decrypts, has at most 16384 bytes of plaintext, was not seen and is inside the window; an opened number had not been opened before |
| ReplayWindow.RecordReader.SetReadState | Dream Journal/Pods/BoringSSL-GRPC/ssl/dtls_method.cc:81-95 | refused while handshake data is unprocessed; otherwise a new epoch starts with an empty window, and what was accepted stays on record |
| Reassembly.ParseInvertsHeader | Dream Journal/Pods/BoringSSL-GRPC/ssl/d1_both.cc:459-473 | parsing a fragment header and body gives back the header, the body and the rest of the record |
| Reassembly.BitRangeBits | Dream Journal/Pods/BoringSSL-GRPC/ssl/d1_both.cc:203-207 | bit_range sets exactly the bits from start up to but excluding end |
| Reassembly.MarkRange | Dream Journal/Pods/BoringSSL-GRPC/ssl/d1_both.cc:211-235 | the byte-wise marking sets exactly the bits of the range, touches no other bit and never leaves the mask |
| Reassembly.CheckComplete | Dream Journal/Pods/BoringSSL-GRPC/ssl/d1_both.cc:236-251 | the byte-wise completeness check succeeds if and only if every byte of the message is marked |
| Reassembly.CompleteMeans | Dream Journal/Pods/BoringSSL-GRPC/ssl/d1_both.cc:236-251 | comparing whole mask bytes and the last partial byte is the same as all bits below msg_len being set |
| Reassembly.HmFragment.constructor | Dream Journal/Pods/BoringSSL-GRPC/ssl/d1_both.cc:152-199 | a new fragment buffer has marked nothing; an empty message has no mask and is complete |
| Reassembly.HmFragment.Mark | Dream Journal/Pods/BoringSSL-GRPC/ssl/d1_both.cc:211-251 | the marked bytes become the union with the range; the mask is released exactly when the union covers the message; an invalid range changes nothing |
| Reassembly.HmFragment.Store | Dream Journal/Pods/BoringSSL-GRPC/ssl/d1_both.cc:399-402 | copying a fragment overlays its bytes, and completeness is full coverage |
| Reassembly.HmFragment.NullIffComplete | Dream Journal/Pods/BoringSSL-GRPC/ssl/d1_both.cc:236-251 | the mask is null if and only if every byte has been marked |
| DtlsReceiver.ReceiveKeepsRing | Dream Journal/Pods/BoringSSL-GRPC/ssl/d1_both.cc:265-295 | after any fragment every buffered message sits in slot seq mod 7 and inside the window of seven |
| DtlsReceiver.RecordKeepsRing | Dream Journal/Pods/BoringSSL-GRPC/ssl/d1_both.cc:350-405 | the same for a record with any number of fragments |
| DtlsReceiver.NextKeepsRing | Dream Journal/Pods/BoringSSL-GRPC/ssl/d1_both.cc:426-438 | the same when the current message is released |
| DtlsReceiver.SlotHoldsOwnMessage | Dream Journal/Pods/BoringSSL-GRPC/ssl/d1_both.cc:276-283 | the assertion that the slot holds the message with the sequence number of the header cannot fail |
| DtlsReceiver.FatalExactlyWhen | Dream Journal/Pods/BoringSSL-GRPC/ssl/d1_both.cc:362-391 | a fragment is accepted or ignored if and only if its lengths are consistent, it agrees with the buffered message and it is not exactly seven messages ahead, where the two window checks differ by one; and the alert of each refusal |
| DtlsReceiver.Receiver.GetIncomingMessage | Dream Journal/Pods/BoringSSL-GRPC/ssl/d1_both.cc:265-295 | finds or makes the buffer of a message in its slot, or fails with an alert on any mismatch |
| DtlsReceiver.Receiver.HandleFragment | Dream Journal/Pods/BoringSSL-GRPC/ssl/d1_both.cc:362-402 | one pass of the fragment loop computes the transition that the invariants are about, with the same alert |
| DtlsReceiver.Receiver.OpenHandshake | Dream Journal/Pods/BoringSSL-GRPC/ssl/d1_both.cc:297-405 | the outcome for every record type, with the alert of every refusal, and for handshake records the whole loop over their fragments |
| DtlsReceiver.Receiver.IsCurrentMessageComplete | Dream Journal/Pods/BoringSSL-GRPC/ssl/d1_both.cc:255-260 | true if and only if the buffer of the next expected message is complete |
| DtlsReceiver.Receiver.GetMessage | Dream Journal/Pods/BoringSSL-GRPC/ssl/d1_both.cc:408-424 | a message is handed over if and only if the current one is complete, and then body and raw bytes, header included, are those of the buffer |
| DtlsReceiver.Receiver.NextMessage | Dream Journal/Pods/BoringSSL-GRPC/ssl/d1_both.cc:426-438 | releasing the message empties its slot and moves the window by one; the flight has a reply from then on if and only if it was complete |
| DtlsReceiver.Receiver.HasUnprocessedHandshakeData | Dream Journal/Pods/BoringSSL-GRPC/ssl/d1_both.cc:440-457 | true if and only if a ChangeCipherSpec is waiting or a message other than the one being read is buffered, in part or whole |
| DtlsReceiver.RecordKeepsCurrent | Dream Journal/Pods/BoringSSL-GRPC/ssl/d1_both.cc:393-397 | once complete, the current message is not changed by any record until it is released |
| DtlsReceiver.OneFragment | Dream Journal/Pods/BoringSSL-GRPC/ssl/d1_both.cc:350-405 | a record with one fragment is handled as that fragment |
| DtlsReceiver.FirstFragment | Dream Journal/Pods/BoringSSL-GRPC/ssl/d1_both.cc:350-405 | the first fragment of a record is handled as if it had come alone, and unless it is fatal the rest follows as a record of its own |
| DtlsWriter.IncrementAddsOne | Dream Journal/Pods/BoringSSL-GRPC/ssl/tls_record.cc:154-163 | the byte-wise increment adds one modulo the width of the field |
| DtlsWriter.SequenceUpdate | Dream Journal/Pods/BoringSSL-GRPC/ssl/tls_record.cc:154-163 | the loop computes the increment and fails if and only if the counter wraps around; the six header bytes of every record are advanced by it |
| DtlsWriter.Writer.SealRecord | Dream Journal/Pods/BoringSSL-GRPC/ssl/dtls_record.cc:294-351 | a record is sealed with the next number of its epoch, which the six bytes of the counter hold, and takes 13 bytes of header and its ciphertext; until a wrap-around the number is greater than all used in that epoch, for the current and the previous epoch |
| DtlsWriter.Writer.SetWriteState | Dream Journal/Pods/BoringSSL-GRPC/ssl/dtls_method.cc:97-107 | a new epoch starts at zero and the counter of the previous epoch is kept for retransmissions |
| DtlsSender.SealNextAdvances | Dream Journal/Pods/BoringSSL-GRPC/ssl/d1_both.cc:644-735 | a sealed fragment fits the space given, is exactly the next piece of the flight, in the epoch of its message, and moves the cursor strictly forward |
| DtlsSender.FragmentFills | Dream Journal/Pods/BoringSSL-GRPC/ssl/d1_both.cc:689-735 | a fragment carries the whole rest of its message if that is sure to fit, and otherwise exactly fills the space there is |
| DtlsSender.PacketIsFull | Dream Journal/Pods/BoringSSL-GRPC/ssl/d1_both.cc:739-777 | a packet ends only at the end of the flight or when the next record has no room in what is left |
| DtlsSender.ReplayConcat | Dream Journal/Pods/BoringSSL-GRPC/ssl/d1_both.cc:739-777 | cutting a flight in several calls is the same as cutting it in one |
| DtlsSender.ReplayGenuine | Dream Journal/Pods/BoringSSL-GRPC/ssl/d1_both.cc:644-735 | every record of a pass is a fragment of a message of the flight with its own header |
| DtlsSender.SealErrorExactly | Dream Journal/Pods/BoringSSL-GRPC/ssl/d1_both.cc:644-735 | sealing fails if and only if the message has no cipher or is no whole fragment, or there is room for it and its counter is at its end or the record too long; below 64 KB the length does not matter |
| DtlsSender.TooLongExactly | Dream Journal/Pods/BoringSSL-GRPC/ssl/d1_both.cc:693-735 | a sealed fragment exceeds the limit for plaintexts if and only if both the rest of the message and the packet size less the overhead do |
| DtlsSender.PacketLosesExactly | Dream Journal/Pods/BoringSSL-GRPC/ssl/d1_both.cc:739-777 | a packet fails if and only if some message it gets to cannot be sealed, and loses records that the cursor has passed if and only if that is not the first one |
| DtlsSender.NothingRefused | Dream Journal/Pods/BoringSSL-GRPC/ssl/d1_both.cc:739-777 | one packet from anywhere in a flight does not fail while every message has a cipher and is well-formed and the counters last; for whole flights see Enough below |
| DtlsSender.EnoughForPacket | Dream Journal/Pods/BoringSSL-GRPC/ssl/d1_both.cc:739-777 | a condition that can be checked before the call (room for every message, ciphers, record numbers for every piece) makes a packet succeed with something in it, and holds again after it |
| DtlsSender.RecordLost | Dream Journal/Pods/BoringSSL-GRPC/ssl/d1_both.cc:739-777 | an input for which a record is lost: two messages and one record number left |
| DtlsSender.Sender.SealNext | Dream Journal/Pods/BoringSSL-GRPC/ssl/d1_both.cc:644-735 | the imperative step equals the function that the cursor lemmas are about, and a sealed record bears a number that was not used before |
| DtlsSender.Sender.SealNextPacket | Dream Journal/Pods/BoringSSL-GRPC/ssl/d1_both.cc:739-777 | a packet has at most max_out bytes and holds exactly the records between the two cursor positions, with numbers not used before; it fails exactly as PacketLosesExactly says |
| DtlsSender.Sender.SendPacket | Dream Journal/Pods/BoringSSL-GRPC/ssl/d1_both.cc:800-820 | a packet that the transport refuses restores the cursor in every state; without a packet the cursor moves if and only if a message behind the first cannot be sealed; an accepted packet moves it strictly forward; with Enough there is one, and the result is that of the transport |
| DtlsSender.Sender.SendFlight | Dream Journal/Pods/BoringSSL-GRPC/ssl/d1_both.cc:782-827 | the loop terminates; it succeeds if and only if writing is open, no packet was unsealed or refused so that the cursor is at the end, and the transport flushes; with Enough before the call and a transport that accepts as many packets as may be needed it does succeed; in every case the accepted records lead from the old cursor to the new one, unless a packet could not be sealed |
| DtlsSender.Sender.FlushFlight | Dream Journal/Pods/BoringSSL-GRPC/ssl/d1_both.cc:829-834 | completes the flight and continues from the cursor, with the same guarantees and the same success |
| DtlsSender.Sender.Retransmit | Dream Journal/Pods/BoringSSL-GRPC/ssl/d1_both.cc:836-845 | rewinds and sends the whole flight again at whatever packet size now applies, with success under the same conditions; the accepted records lead from the start of the flight to the cursor, whatever was lost before; no sealing error if there was Enough |
| DtlsSender.Sender.AddOutgoing | Dream Journal/Pods/BoringSSL-GRPC/ssl/d1_both.cc:555-594 | adds to the flight, or starts a new one after a complete flight; at most seven messages; numbers handshake messages one after the other; fails without adding if the transcript cannot take the message |
| DtlsSender.Sender.ClearOutgoing | Dream Journal/Pods/BoringSSL-GRPC/ssl/d1_both.cc:500-509 | the flight is empty and the cursor at its start; what was sent stays on record |
| DtlsSender.Sender.UpdateMtu | Dream Journal/Pods/BoringSSL-GRPC/ssl/d1_both.cc:615-637 | a valid packet size stays; otherwise it becomes the answer of the transport if that is valid and the default if not |
| DtlsTransfer.DeliversOnlyWhatWasSent | Dream Journal/Pods/BoringSSL-GRPC/ssl/d1_both.cc:297-457 | over every run of records, in any order, duplicated, overlapping, forged or of other epochs, and with cipher changes in between, what is delivered is a prefix of what was sent, byte for byte |
| DtlsTransfer.DeliversEverythingThatArrives | Dream Journal/Pods/BoringSSL-GRPC/ssl/d1_both.cc:297-457 | after any orderly run, taking what is complete delivers the whole flight if and only if every byte of it was carried by a record that was opened |
| DtlsTransfer.OpensExactly | Dream Journal/Pods/BoringSSL-GRPC/ssl/dtls_record.cc:177-272 | a record is opened if and only if its body is within 16704 bytes, it is authentic, of this epoch and within 16384 bytes of plaintext, did not arrive in this epoch before and none 64 or more ahead of it did; any other leaves the messages alone, and ends reading if and only if only its plaintext is too long |
| DtlsTransfer.LongBodyDropped | Dream Journal/Pods/BoringSSL-GRPC/ssl/dtls_record.cc:197-205 | a record with a longer body is dropped silently, whatever it holds: nothing changes |
| DtlsTransfer.DispatchExactly | Dream Journal/Pods/BoringSSL-GRPC/ssl/d1_both.cc:297-345 | what an opened record other than a handshake record does: only warnings, at most four in a row, go on as alerts; a ChangeCipherSpec is [1] in the clear; application data may come only encrypted |
| DtlsTransfer.HandshakeExactly | Dream Journal/Pods/BoringSSL-GRPC/ssl/d1_both.cc:347-405 | a handshake record changes the messages and ends a row of warnings, and ends reading if and only if a fragment is fatal |
| DtlsTransfer.ReadStateExactly | Dream Journal/Pods/BoringSSL-GRPC/ssl/dtls_method.cc:81-95 | the read cipher changes if and only if no ChangeCipherSpec waits and no message, whole or in part, is buffered but the one that the handshake looks at |
| DtlsTransfer.TimelyGets | Dream Journal/Pods/BoringSSL-GRPC/ssl/dtls_record.cc:177-272 | a record that arrives in its epoch, for the first time and before any 64 ahead of it, gets its bytes through, whatever else arrives |
| DtlsTransfer.GotWasTimely | Dream Journal/Pods/BoringSSL-GRPC/ssl/dtls_record.cc:177-272 | the converse: a byte that was missing and has been received came in a record that arrived so |
| DtlsTransfer.NearlyInOrderIsTimely | Dream Journal/Pods/BoringSSL-GRPC/ssl/dtls_record.cc:177-272 | between two cipher changes, records that are displaced by less than 64 numbers all arrive in time |
| DtlsEndToEnd.LargePacketEndsReading | Dream Journal/Pods/BoringSSL-GRPC/ssl/dtls_record.cc:197-257 | two inputs: in a packet size of 20000, a message of 16373 bytes makes a record that ends reading, and one of 18999 bytes makes a record that is dropped silently |
| DtlsTransfer.RunGets | Dream Journal/Pods/BoringSSL-GRPC/ssl/d1_both.cc:350-405 | over any orderly run a byte has been received if and only if it had been before or a record carrying it was opened |
| DtlsTransfer.ReorderingLoses | Dream Journal/Pods/BoringSSL-GRPC/ssl/dtls_record.cc:225-234 | an input for which reordering loses data: two records of one pass arrive once each, and in the wrong order the first is dropped |
| DtlsEndpoint.Endpoint.Arrive | Dream Journal/Pods/BoringSSL-GRPC/ssl/dtls_record.cc:177-272 | record layer and handshake receiver together take exactly the step of the runs above, for every record |
| DtlsEndpoint.Endpoint.Handle | Dream Journal/Pods/BoringSSL-GRPC/ssl/d1_both.cc:297-405 | the same for an opened record: alerts, ChangeCipherSpec, application data and handshake fragments |
| DtlsEndpoint.Endpoint.GetMessage | Dream Journal/Pods/BoringSSL-GRPC/ssl/d1_both.cc:408-424 | the message shown to the handshake is the one that the step delivers when it is released |
| DtlsEndpoint.Endpoint.NextMessage | Dream Journal/Pods/BoringSSL-GRPC/ssl/d1_both.cc:426-438 | releasing a message is the step that delivers it |
| DtlsEndpoint.Endpoint.SetReadState | Dream Journal/Pods/BoringSSL-GRPC/ssl/dtls_method.cc:81-95 | changing the read cipher is the step of the runs: refused with leftover data, and then reading ends |
| DtlsEndToEnd.FinishMessage | Dream Journal/Pods/BoringSSL-GRPC/ssl/d1_both.cc:525-537 | filling in the length fields gives the message with its complete header |
| DtlsEndToEnd.PassCovers | Dream Journal/Pods/BoringSSL-GRPC/ssl/d1_both.cc:739-827 | the records of a completed pass carry every byte of every message of the flight |
| DtlsEndToEnd.NumbersIdentify | Dream Journal/Pods/BoringSSL-GRPC/ssl/dtls_record.cc:274-351 | no two records of any passes and flights bear the same number, so a retransmission is never taken for a replay of the original |
| DtlsEndToEnd.PiecesAreContiguous | Dream Journal/Pods/BoringSSL-GRPC/ssl/d1_both.cc:644-827 | the records accepted in a pass, in order, split the message bodies without gap or overlap |
| DtlsEndToEnd.ReplayCarries | Dream Journal/Pods/BoringSSL-GRPC/ssl/d1_both.cc:644-735 | everything behind the cursor has been carried by some record |
| DtlsEndToEnd.FlightIsTransferred | Dream Journal/Pods/BoringSSL-GRPC/ssl/d1_both.cc:297-846 | end to end: flights cut under any packet sizes, failures and retransmissions, lost, repeated, interleaved and reordered in any way, across cipher changes: what is delivered is always a prefix of what was sent, and it is everything if and only if each missing byte came in some record, of any pass, that arrived in its epoch before any 64 ahead of it |
| DtlsEndToEnd.BroughtExactly | Dream Journal/Pods/BoringSSL-GRPC/ssl/d1_both.cc:297-846 | a missing byte is received if and only if some record of any pass brings it |
| DtlsEndToEnd.SenderIsSafe | Dream Journal/Pods/BoringSSL-GRPC/ssl/d1_both.cc:644-846 | safety from the sender, in every state of it and under plain loss: if what arrives authentically is what its transport ever accepted, a prefix of the messages is delivered |
| DtlsEndToEnd.SenderTransfers | Dream Journal/Pods/BoringSSL-GRPC/ssl/d1_both.cc:782-846 | the same if and only if from the sender, whatever it has sent in whatever passes, flights and sealing errors |
| DtlsEndToEnd.OnePassTransfers | Dream Journal/Pods/BoringSSL-GRPC/ssl/d1_both.cc:782-846 | one pass is enough: after a call that wrote the whole flight, it is delivered if the handshake records of that pass arrive in time |
| PbVarint.VarintAtMostTen | Dream Journal/Pods/nanopb/pb_encode.c:574-594 | the varint of a 64-bit number has at most ten bytes |
| PbVarint.VarintRoundTrip | Dream Journal/Pods/nanopb/pb_decode.c:250-271 | the 64-bit decoder recovers every 64-bit number and consumes exactly its bytes, whatever follows |
| PbVarint.Varint32RoundTrip | Dream Journal/Pods/nanopb/pb_decode.c:182-247 | the 32-bit decoder recovers every 32-bit number and consumes exactly its bytes |
| PbVarint.NegativeVarint32 | Dream Journal/Pods/nanopb/pb_decode.c:214-236 | the 32-bit decoder recovers the low 32 bits of every sign-extended negative 32-bit number |
| PbVarint.ZigZagRoundTrip | Dream Journal/Pods/nanopb/pb_encode.c:596-605 | decoding the zigzag form of a signed 64-bit number gives the number |
| PbVarint.UnZigZagRoundTrip | Dream Journal/Pods/nanopb/pb_decode.c:1240-1252 | every 64-bit number is the zigzag form of the number it decodes to |
| PbVarint.LittleEndianRoundTrip | Dream Journal/Pods/nanopb/pb_decode.c:1254-1286 | fixed-width integers are recovered from their bytes |
| PbExact.VarintExactly | Dream Journal/Pods/nanopb/pb_decode.c:250-271 | the 64-bit decoder accepts exactly the varints of at most ten bytes, takes exactly their bytes and gives their number modulo 2^64 |
| PbExact.Varint32Exactly | Dream Journal/Pods/nanopb/pb_decode.c:182-247 | what the 32-bit decoder accepts in up to ten bytes is one varint, read modulo 2^32; up to five bytes are accepted if and only if their number is below 2^32 |
| PbExact.IntExactly | Dream Journal/Pods/nanopb/pb_decode.c:1289-1372 | which varints an integer field takes, and as which value: signed, unsigned and zigzag, and refused if the field cannot hold it |
| PbExact.FixedExactly | Dream Journal/Pods/nanopb/pb_decode.c:1254-1286 | a fixed-width number is read if and only if its four or eight bytes are there, least significant first |
| PbExact.BlobExactly | Dream Journal/Pods/nanopb/pb_decode.c:1375-1461 | which delimited payloads a bytes, string or fixed-length field takes, and as which contents |
| PbWire.SkipsExactly | Dream Journal/Pods/nanopb/pb_decode.c:316-326 | skipping takes n bytes if and only if the first n bytes are one well-formed payload of the wire type: a varint, exactly eight bytes, a length with as many bytes, or exactly four bytes; every other type is refused |
| PbWire.PayloadMatchesKey | Dream Journal/Pods/nanopb/pb_encode.c:635-672 | every encoded value is a well-formed payload of the wire type in its key |
| PbWire.KeyByte | Dream Journal/Pods/nanopb/pb_encode.c:641-672 | the key on the wire: the tag, and 0 for varints, 1 for eight bytes, 2 for everything with a length, 5 for four bytes |
| PbExact.NumbersArePacked | Dream Journal/Pods/nanopb/pb_encode.c:126-180 | an array of numbers goes out under one key of wire type 2, with the length of all its elements |
| PbScalars.ScalarRoundTrip | Dream Journal/Pods/nanopb/pb_decode.c:1289-1461 | every value that a non-submessage field can hold is read back and exactly its bytes are consumed |
| PbScalars.PackedRoundTrip | Dream Journal/Pods/nanopb/pb_decode.c:419-448 | packed elements are read back in order until the payload is used up |
| PbScalars.DelimitedReadableExactly | Dream Journal/Pods/nanopb/pb_decode.c:367-380 | a payload can be read back if and only if it has fewer than 2^32 bytes, although longer ones are written |
| PbScalars.StringReadableExactly | Dream Journal/Pods/nanopb/pb_decode.c:1428-1461 | a string can be read back if and only if it leaves room for its terminator, although one that fills its buffer is written |
| PbIter.FieldIter.constructor | Dream Journal/Pods/nanopb/pb_common.c:8-18 | the iterator starts on the first field at the address of its data |
| PbIter.FieldIter.Next | Dream Journal/Pods/nanopb/pb_common.c:20-76 | one step to the next field, or back to the first; position, data address, size address and required index are those of a scan from the start |
| PbIter.FieldIter.FindTag | Dream Journal/Pods/nanopb/pb_common.c:78-95 | terminates from every position, finds the first field with the tag in cyclic order, and otherwise stays where it was; the derived fields are again those of a scan |
| PbIter.FindExists | Dream Journal/Pods/nanopb/pb_common.c:78-95 | the search succeeds from every position if and only if some field has the tag |
| PbIter.IteratorVisitsMembers | Dream Journal/Pods/nanopb/pb.h:391-427 | the relative offsets of the descriptor macros lead the iterator to every member of the struct, across unions and arrays |
| PbRoundTrip.MessageRoundTrip | Dream Journal/Pods/nanopb/pb_decode.c:901-1063 | every valid message can be encoded, and an encoding of fewer than 2^32 bytes decodes to the same message, by induction over nested submessages |
| PbRoundTrip.KeyRoundTrip | Dream Journal/Pods/nanopb/pb_encode.c:635-639 | the key of a field is read back as its tag and wire type |
| PbRoundTrip.FindFinds | Dream Journal/Pods/nanopb/pb_common.c:78-95 | with distinct tags the cyclic search finds the field from every position |
| PbRoundTrip.ZeroIsDefault | Dream Journal/Pods/nanopb/pb_encode.c:215-303 | a field that the zero check lets the encoder leave out has the value that decoding starts from |
| PbRoundTrip.SlotRoundTrip | Dream Journal/Pods/nanopb/pb_encode.c:307-392 | the bytes of one field, of any kind, move the decoder from the struct with the fields before it to the struct with this field too |
| PbExact.OmittedExactly | Dream Journal/Pods/nanopb/pb_encode.c:215-392 | a field takes no bytes if and only if it is absent, an empty array or, without a has_ flag, zero; a submessage is zero if and only if none of its fields takes any |
| PbExact.MessageEncodes | Dream Journal/Pods/nanopb/pb_encode.c:494-516 | a struct that matches its descriptor is encoded if and only if every value in it is encodable |
| PbOccurrences.OccurrencesRead | Dream Journal/Pods/nanopb/pb_decode.c:401-475 | any sequence of occurrences of a repeated field, each a single element or a packed run, packable or not, leaves all elements in the order of the wire behind those already there |
| PbOccurrences.OverflowRefused | Dream Journal/Pods/nanopb/pb_decode.c:419-460 | more elements than the array holds, in whatever occurrences, make decoding fail |
| PbOccurrences.LastScalarStays | Dream Journal/Pods/nanopb/pb_decode.c:401-475 | after any occurrence of a scalar field its last value stays, and of a oneof only that member |
| PbOccurrences.SubmessageRead | Dream Journal/Pods/nanopb/pb_decode.c:1463-1485 | a submessage is decoded on top of what its field holds already |
| PbOccurrences.DecodeConcatenation | Dream Journal/Pods/nanopb/pb_decode.c:901-1049 | decoding whole fields and then more on top of them is decoding both at once |
| PbOccurrences.SubmessagesMerge | Dream Journal/Pods/nanopb/pb_decode.c:1463-1485 | two occurrences of a submessage leave what one occurrence with the contents of both leaves |
| PbReader.ReaderLacksFields | Dream Journal/Pods/nanopb/pb_decode.c:919-962 | whatever fields a reader does not know, it reads exactly the others: the encoding of a valid message, decoded with a descriptor from which any fields were left out, gives the message without them |
| PbUnknown.UnknownFieldTransparent | Dream Journal/Pods/nanopb/pb_decode.c:919-962 | a field with an unknown tag and a well-formed payload of any of the four wire types, inserted at any field boundary, changes neither the decoded message nor success |
| PbUnknown.UnknownFieldIgnored | Dream Journal/Pods/nanopb/pb_decode.c:919-962 | the same from every state of the loop, wherever the iterator was left |
| PbUnknown.UnknownInEncoding | Dream Journal/Pods/nanopb/pb_decode.c:919-962 | an unknown field between any two slots of an encoded message, in front or at the end, leaves the decoded message the same |
| PbUnknown.TagZero | Dream Journal/Pods/nanopb/pb_decode.c:913-962 | tag 0 with a non-zero wire type is skipped by a descriptor with fields but makes the empty one fail |
| PbUnknown.ZeroEnds | Dream Journal/Pods/nanopb/pb_decode.c:293-314 | a zero byte where a key should stand ends the message, and what follows is not read |
| PbDecoded.DecodedFits | Dream Journal/Pods/nanopb/pb_decode.c:901-1049 | whatever the input, a decoded message fits its struct: counts, buffer sizes, terminators, integer ranges and at most one member of a oneof |
| PbDecoded.DecodedSurvivesEncoding | Dream Journal/Pods/nanopb/pb_decode.c:1051-1063 | what was decoded from any input can be encoded, and decoding that gives the same message |
| PbMissing.MissingExactly | Dream Journal/Pods/nanopb/pb_decode.c:1006-1046 | decoding passes its final check if and only if each of the first 64 required fields was on the wire |
| PbMissing.SeenMeansSent | Dream Journal/Pods/nanopb/pb_decode.c:988-993 | a bit of fields_seen is set if and only if a field with the tag was read |
| PbRequired.WordIsMask | Dream Journal/Pods/nanopb/pb_decode.c:1030-1044 | a word of the bit set equals the mask of its n lowest bits if and only if exactly these fields were seen |
| PbRequired.Mark | Dream Journal/Pods/nanopb/pb_decode.c:988-993 | setting a bit of the two words adds the required field to the set seen |
| PbRequired.AllSeen | Dream Journal/Pods/nanopb/pb_decode.c:1024-1046 | whole words first, then the remaining bits: passes if and only if all required fields up to the count were seen, for counts that are and are not multiples of 32 |
| PbRequired.CountRequired | Dream Journal/Pods/nanopb/pb_decode.c:1006-1023 | running the iterator to the end counts the required fields from any position |
| PbEncode.VarintBuffer | Dream Journal/Pods/nanopb/pb_encode.c:574-593 | the loop over the ten-byte buffer produces the varint |
| PbEncode.OStream.Write | Dream Journal/Pods/nanopb/pb_encode.c:101-119 | succeeds if and only if there is room, appends exactly the bytes and touches no others |
| PbEncode.OStream.EncodeVarint | Dream Journal/Pods/nanopb/pb_encode.c:574-594 | writes the varint of the number |
| PbEncode.OStream.EncodeSvarint | Dream Journal/Pods/nanopb/pb_encode.c:596-605 | writes the varint of the zigzag form |
| PbEncode.OStream.EncodeFixed32 | Dream Journal/Pods/nanopb/pb_encode.c:607-616 | writes four bytes, least significant first |
| PbEncode.OStream.EncodeFixed64 | Dream Journal/Pods/nanopb/pb_encode.c:619-632 | writes eight bytes, least significant first |
| PbEncode.OStream.EncodeString | Dream Journal/Pods/nanopb/pb_encode.c:674-680 | writes the length and the bytes |
| PbEncode.OStream.EncodeBlob | Dream Journal/Pods/nanopb/pb_encode.c:810-868 | byte, string and fixed-length fields, with the length of a string found by its terminator |
| PbEncode.OStream.EncodeSubmessage | Dream Journal/Pods/nanopb/pb_encode.c:682-730 | succeeds if and only if the whole submessage fits, and writes its size and its bytes; a changed size is unreachable |
| PbEncode.OStream.EncodeAgain | Dream Journal/Pods/nanopb/pb_encode.c:705-729 | the second pass fills its substream to the last byte |
| PbEncode.OStream.Encode | Dream Journal/Pods/nanopb/pb_encode.c:494-516 | the iterator loop writes all fields in order, or fails |
| PbEncode.OStream.EncodeBasicField | Dream Journal/Pods/nanopb/pb_encode.c:307-392 | writes a field according to presence, count or the zero check, under the key of PbWire.KeyByte |
| PbEncode.OStream.EncodeArray | Dream Journal/Pods/nanopb/pb_encode.c:126-211 | writes packed and unpacked arrays |
| PbEncode.OStream.PackedSize | Dream Journal/Pods/nanopb/pb_encode.c:145-167 | the size of a packed array, computed or counted, is the size of its encoding |
| PbEncode.CheckMessage | Dream Journal/Pods/nanopb/pb_encode.c:261-302 | the zero check of a submessage, which compares integers byte by byte, holds if and only if all of its fields are zero |
| PbEncode.GetEncodedSize | Dream Journal/Pods/nanopb/pb_encode.c:533-542 | the counted size is the length of the encoding |
| PbEncode.SizingEqualsWriting | Dream Journal/Pods/nanopb/pb_encode.c:682-730 | what a sizing stream counts is what a buffer needs: the same data fits if and only if the counted size does, and takes exactly that many bytes |
| PbEncode.SubstreamEmits | Dream Journal/Pods/nanopb/pb_encode.c:708-727 | a substream with exactly the counted size leaves its parent where writing the bytes directly would |
| PbDecode.IStream.ReadByte | Dream Journal/Pods/nanopb/pb_decode.c:136-152 | takes one byte if there is one; position and bytes left still add up |
| PbDecode.IStream.Read | Dream Journal/Pods/nanopb/pb_decode.c:100-132 | takes exactly count bytes, or none |
| PbDecode.IStream.DecodeVarint32Eof | Dream Journal/Pods/nanopb/pb_decode.c:182-242 | the loop equals the 32-bit decoder, with the end of input told apart |
| PbDecode.IStream.ReadVarint | Dream Journal/Pods/nanopb/pb_decode.c:250-271 | the loop equals the 64-bit decoder |
| PbDecode.IStream.SkipOneField | Dream Journal/Pods/nanopb/pb_decode.c:316-326 | skips as SkipField says: exactly one well-formed payload of its wire type (PbWire.SkipsExactly) |
| PbDecode.IStream.DecodeTag | Dream Journal/Pods/nanopb/pb_decode.c:293-314 | splits the key; a zero key ends the message |
| PbDecode.IStream.MakeSubstream | Dream Journal/Pods/nanopb/pb_decode.c:367-380 | parent and substream together have what was left, and the substream is exactly the delimited payload |
| PbDecode.IStream.CloseSubstream | Dream Journal/Pods/nanopb/pb_decode.c:382-395 | the parent continues exactly after the payload |
| PbDecode.IStream.CastToField | Dream Journal/Pods/nanopb/pb_decode.c:1289-1372 | the casts of the integer decoders reject what the field cannot hold |
| PbDecode.IStream.ReadScalar | Dream Journal/Pods/nanopb/pb_decode.c:1289-1508 | each field decoder consumes exactly the bytes of its value |
| PbDecode.IStream.ReadPacked | Dream Journal/Pods/nanopb/pb_decode.c:419-448 | the packed loop stops with the payload or fails |
| PbDecode.IStream.DecodeStaticField | Dream Journal/Pods/nanopb/pb_decode.c:401-475 | one field is decoded into the struct: presence, counts, the members of a oneof, and elements in the order of the wire (PbOccurrences.OccurrencesRead) |
| PbDecode.IStream.ReadValue | Dream Journal/Pods/nanopb/pb_decode.c:1463-1485 | a submessage is decoded in its own substream, on top of the defaults only for array elements |
| PbDecode.IStream.DecodeNoInit | Dream Journal/Pods/nanopb/pb_decode.c:901-1049 | the loop with iterator and bit set computes the decoding that the round trip is about; bytes read and bytes left always add up to the input |
| PbDecode.IStream.Decode | Dream Journal/Pods/nanopb/pb_decode.c:1051-1063 | decoding starts from defaults whatever the struct held |
| PbDecode.SetToDefaults | Dream Journal/Pods/nanopb/pb_decode.c:812-895 | the iterator loop sets every field to its default |
| PbCodec.Store | Dream Journal/Pods/nanopb/pb_encode.c:494-516 | a message is stored if and only if there is room for it, and no byte behind it is touched |
| PbCodec.StoreAndLoad | Dream Journal/Pods/nanopb/pb_decode.c:1051-1063 | a valid message stored by the encoder and loaded by the decoder is the same message |
| SslBuffer.ConsumeExactly | Dream Journal/Pods/BoringSSL-GRPC/ssl/ssl_buffer.cc:90-97 | consuming always leaves the rest of the data if and only if the data ends within the first 2^16 bytes of the memory; otherwise the 16-bit offset wraps around |
| SslBuffer.AlignedOffset | Dream Journal/Pods/BoringSSL-GRPC/ssl/ssl_buffer.cc:68-70 | the offset aligns the record body to eight bytes |
| SslBuffer.Buffer.EnsureCap | Dream Journal/Pods/BoringSSL-GRPC/ssl/ssl_buffer.cc:47-81 | capacity grows without changing the contents, except that more than 65535 is refused |
| SslBuffer.Buffer.Append | Dream Journal/Pods/BoringSSL-GRPC/ssl/ssl_buffer.cc:83-88 | data copied behind the contents and accounted for is appended to them |
| SslBuffer.Buffer.Consume | Dream Journal/Pods/BoringSSL-GRPC/ssl/ssl_buffer.cc:90-97 | drops the front of the contents unless the offset wraps, and then shows what lies at the wrapped offset |
| SslBuffer.Buffer.Flush | Dream Journal/Pods/BoringSSL-GRPC/ssl/ssl_buffer.cc:239-252 | over any short writes and failures, what the transport took followed by the contents stays the same while no offset wraps; success empties the buffer; the exact bytes, offset and result in every case |
| SslBuffer.FlowCompletes | Dream Journal/Pods/BoringSSL-GRPC/ssl/ssl_buffer.cc:239-252 | a transport that takes something with every call takes the whole buffer |
| SslBuffer.FillThatBreaks | Dream Journal/Pods/BoringSSL-GRPC/ssl/ssl_buffer.cc:239-252 | for every fill that ends beyond 2^16 there are contents and a short write after which bytes taken and contents are not what was put in |
| TlsWriter.TooLargeLoses | Dream Journal/Pods/BoringSSL-GRPC/ssl/s3_pkt.cc:221-289 | the bound of 65529 bytes is tight: for every larger size up to 65535 there are a flight, a record and an allocation for which do_ssl3_write, after a short write, shows bytes that were never sealed |
| TlsWriter.Writer.AddRecordToFlight | Dream Journal/Pods/BoringSSL-GRPC/ssl/s3_both.cc:135-165 | one more record at the end of the flight if sealing succeeds, and otherwise nothing; the flight grows by at most record and overhead |
| TlsWriter.Writer.AddMessage | Dream Journal/Pods/BoringSSL-GRPC/ssl/s3_both.cc:184-205 | a message is sealed in order, in chunks as long as the record size allows; it succeeds if and only if every chunk can be sealed and the transcript takes the message; a failure leaves a prefix of it sealed |
| TlsWriter.StreamConserves | Dream Journal/Pods/BoringSSL-GRPC/ssl/s3_both.cc:257-270 | what the loop over the flight takes is a prefix, what is left follows it, and it succeeds if and only if nothing is left |
| TlsWriter.StreamStops | Dream Journal/Pods/BoringSSL-GRPC/ssl/s3_both.cc:257-270 | before a failure of the transport exactly the bytes of its results so far are taken |
| TlsWriter.StreamCompletes | Dream Journal/Pods/BoringSSL-GRPC/ssl/s3_both.cc:257-270 | a transport that takes something with every call takes the whole flight |
| TlsWriter.FlowIsStream | Dream Journal/Pods/BoringSSL-GRPC/ssl/ssl_buffer.cc:239-252 | the write buffer goes out like a flight as long as its offset cannot wrap around |
| TlsWriter.Writer.FlushFlight | Dream Journal/Pods/BoringSSL-GRPC/ssl/s3_both.cc:231-279 | with a flight pending the write buffer goes first, then the flight, then the transport is flushed: the exact bytes taken, the bytes left and the result over every script of the transport; with a transport that takes something with every call and flushes it succeeds with everything taken; after success the transport has taken every sealed byte in seal order if and only if there was a flight or the write buffer was empty |
| TlsWriter.Writer.WritePending | Dream Journal/Pods/BoringSSL-GRPC/ssl/s3_pkt.cc:202-218 | a retry with other arguments fails and sends nothing; otherwise the pending record is flushed, with the exact bytes taken and left |
| TlsWriter.Writer.DoWrite | Dream Journal/Pods/BoringSSL-GRPC/ssl/s3_pkt.cc:221-289 | seals at most one record, behind the unsent flight, and sends both as far as the transport takes them, byte for byte; a pending record is never sealed again; it succeeds when nothing is in the way; the write buffer is left with data and no pending record if and only if it was so before, or there was room, the flight was not empty and sealing failed |
| TlsWriter.StuckExample | Dream Journal/Pods/BoringSSL-GRPC/ssl/s3_pkt.cc:221-289 | an input that gets the write buffer stuck: the next write fails, and flushing reports success with nothing sent |
| TlsWriter.Writer.MoveFlight | Dream Journal/Pods/BoringSSL-GRPC/ssl/s3_pkt.cc:253-266 | the unsent flight moves into the empty write buffer in front of the new record |
| TlsWriter.Writer.WriteAppData | Dream Journal/Pods/BoringSSL-GRPC/ssl/s3_pkt.cc:129-200 | of the buffer of the caller exactly the bytes up to the reported or remembered progress have been sealed, each once and in order; early data is counted and stops at its limit with a request for the handshake; with nothing in the way and a transport that takes something with every call, all of the data goes out over any number of records, with the pending record and the flight before it, or the next record alone if the caller takes partial writes |
| TlsWriter.CountedNext | Dream Journal/Pods/BoringSSL-GRPC/ssl/s3_pkt.cc:159-192 | after every record, sent or pending, the 16-bit counter is the early data sent modulo its size, and a limit below 2^16 is kept |
| TlsWriter.EarlyDataOverrun | Dream Journal/Pods/BoringSSL-GRPC/ssl/s3_pkt.cc:159-192 | for every limit of 2^16 or more, a run of writes that sends one byte more than the ticket allows and is never stopped |
| TlsWriter.Writer.DispatchAlert | Dream Journal/Pods/BoringSSL-GRPC/ssl/s3_pkt.cc:405-423 | seals the two bytes of the alert, once, if and only if no record is pending, there is room and sealing works, and flushes the transport after a fatal one that went out; an alert disturbs neither a pending write nor the progress of the caller |
| TlsWriter.Writer.SendAlert | Dream Journal/Pods/BoringSSL-GRPC/ssl/s3_pkt.cc:377-403 | an alert shuts writing down, goes out at once if the write buffer is empty and nothing else is in the way, and is held back while the write buffer has data |
| TlsWriter.Run | Dream Journal/Pods/BoringSSL-GRPC/ssl/s3_pkt.cc:129-289 | over every interleaving of messages, alerts, writes, flushes, short writes and failures: bytes taken, then write buffer, then unsent flight, are all sealed records in order, as long as the unsent flight with everything the events add to it, one record and overhead stay within 65529 bytes; and the early data stays within the limit of its ticket if that is below 2^16 |
| TlsWriter.WriteAll | Dream Journal/Pods/BoringSSL-GRPC/ssl/s3_pkt.cc:129-200 | a caller that retries with the same buffer, with anything else in between, has sealed a prefix of its data, and all of it once done |
| TlsWriter.WriteConserves | Dream Journal/Pods/BoringSSL-GRPC/ssl/s3_both.cc:257-270 | a short write moves bytes from the flight to the transport without loss |
| CipherChoice.ChooseCipher | Dream Journal/Pods/BoringSSL-GRPC/ssl/handshake_server.cc:357-424 | with server preference the eligible cipher that the client ranks best in the first group of the server that has any; without, the first eligible cipher of the client; none if and only if none is eligible; none if the list of the client has odd length |
| CipherChoice.ParseClientCipherList | Dream Journal/Pods/BoringSSL-GRPC/ssl/handshake_server.cc:293-321 | the known ciphers of the list in order, or nothing if its length is odd |
| CipherChoice.OfferSeen | Dream Journal/Pods/BoringSSL-GRPC/ssl/handshake_server.cc:293-321 | the server sees the ciphers that the client offers: each one it knows, in the order of the client, from two bytes each |
| CipherChoice.CompatibleMasks | Dream Journal/Pods/BoringSSL-GRPC/ssl/handshake_server.cc:327-354 | the masks have exactly the bits of what the server has: a key, a shared group, a callback for pre-shared keys |
| CipherChoice.CompatibleExactly | Dream Journal/Pods/BoringSSL-GRPC/ssl/handshake_server.cc:389-398 | a cipher can be used if and only if its versions include the one negotiated and the server has what its key exchange and its authentication take; a cipher of TLS 1.3 never |
| CipherChoice.Scan | Dream Journal/Pods/BoringSSL-GRPC/ssl/handshake_server.cc:390-421 | the loop with group_min finds the optimum for any group flags, and none if and only if all eligible ciphers are in an unfinished last group |
| CipherChoice.OptimalUnique | Dream Journal/Pods/BoringSSL-GRPC/ssl/handshake_server.cc:357-424 | there is only one optimum |
| CipherChoice.AllClosed | Dream Journal/Pods/BoringSSL-GRPC/ssl/internal.h:1860-1893 | when the last flag is 0, every cipher is in a finished group |
| ServerHandshake.CertificateListExactly | Dream Journal/Pods/BoringSSL-GRPC/ssl/ssl_cert.cc:383-445 | what the parser of the chain accepts are exactly the lists of certificates that are not empty |
| ServerHandshake.Server.ParseCertChain | Dream Journal/Pods/BoringSSL-GRPC/ssl/ssl_cert.cc:383-445 | succeeds if and only if the message begins with such a list and the key of its first certificate can be read; there is a chain if and only if the list is not empty |
| ServerHandshake.Server.NextMessage | Dream Journal/Pods/BoringSSL-GRPC/ssl/handshake.cc:427 | can be called only for a message that was hashed right after all those released before: the precondition, met at every call, is the property |
| ServerHandshake.Server.DoReadClientHello | Dream Journal/Pods/BoringSSL-GRPC/ssl/handshake_server.cc:432-510 | goes on if and only if the first message is a ClientHello, nothing fails and nothing is awaited; a wait changes nothing |
| ServerHandshake.Server.UseSession | Dream Journal/Pods/BoringSSL-GRPC/ssl/handshake_server.cc:590-653 | fails on a session whose extended master secret the client drops; resumes if and only if the session found may be resumed and agrees on the extended master secret; otherwise a certificate is asked for as configured |
| ServerHandshake.Server.DoSelectParameters | Dream Journal/Pods/BoringSSL-GRPC/ssl/handshake_server.cc:572-684 | whether the session is resumed, a ticket will be sent and a certificate asked for; the ClientHello is hashed and then released; exactly when it goes on |
| ServerHandshake.Server.DoSendServerHello | Dream Journal/Pods/BoringSSL-GRPC/ssl/handshake_server.cc:686-752 | sends and hashes ServerHello, branches on resumption, keeps Channel ID only with ECDHE and the hashes of a resumed session, and announces an OCSP response only in a full handshake with a certificate |
| ServerHandshake.Server.DoSendServerCertificate | Dream Journal/Pods/BoringSSL-GRPC/ssl/handshake_server.cc:754-840 | sends a chain if and only if the cipher authenticates with a certificate, and then an OCSP response if and only if one is expected |
| ServerHandshake.Server.DoSendServerKeyExchange | Dream Journal/Pods/BoringSSL-GRPC/ssl/handshake_server.cc:842-912 | sends the message if and only if key exchange parameters are waiting; a wait for the private key has sent nothing |
| ServerHandshake.Server.DoSendServerHelloDone | Dream Journal/Pods/BoringSSL-GRPC/ssl/handshake_server.cc:914-947 | asks for a certificate if one is wanted, and ends the flight |
| ServerHandshake.Server.DoReadClientCertificate | Dream Journal/Pods/BoringSSL-GRPC/ssl/handshake_server.cc:949-1040 | goes on if and only if none was asked for, or the message is a readable chain, which may be empty if none is required and not in SSL 3.0, or in SSL 3.0 the message was left out and none is required; the server then holds a key and a chain if and only if the client sent them |
| ServerHandshake.Server.DoVerifyClientCertificate | Dream Journal/Pods/BoringSSL-GRPC/ssl/handshake_server.cc:1042-1056 | a chain is verified before anything else is read |
| ServerHandshake.Server.DoReadClientKeyExchange | Dream Journal/Pods/BoringSSL-GRPC/ssl/handshake_server.cc:1058-1267 | goes on if and only if the message is a ClientKeyExchange and nothing fails; a wait for the private key has hashed nothing |
| ServerHandshake.Server.DoReadClientCertificateVerify | Dream Journal/Pods/BoringSSL-GRPC/ssl/handshake_server.cc:1269-1363 | a CertificateVerify is read if and only if there is a client key, and its signature must be valid |
| ServerHandshake.Server.DoReadClientFinished | Dream Journal/Pods/BoringSSL-GRPC/ssl/handshake_server.cc:1439-1461 | goes on only if the Finished equals the MAC of the transcript before it was hashed |
| ServerHandshake.Server.DoSendServerFinished | Dream Journal/Pods/BoringSSL-GRPC/ssl/handshake_server.cc:1463-1509 | a ticket if and only if one is expected, then ChangeCipherSpec, new write keys and a Finished over the transcript so far |
| ServerHandshake.Server.Step | Dream Journal/Pods/BoringSSL-GRPC/ssl/handshake_server.cc:1539-1615 | every step keeps the invariant; it goes on, and strictly raises the rank of the state, if and only if the client has done its part, nothing fails and nothing is awaited; it waits for a message if and only if one is needed and none is there; any other wait changes nothing |
| ServerHandshake.Server.Handshake | Dream Journal/Pods/BoringSSL-GRPC/ssl/handshake_server.cc:1539-1621 | the state machine terminates, and returns success only in state_done; if nothing fails and nothing is awaited, it ends only in success, a flush, the wait for a ChangeCipherSpec or a message that has not come, or on a message that the client may not send |
| ServerHandshake.Server.Resume | Dream Journal/Pods/BoringSSL-GRPC/ssl/handshake.cc:491-628 | an error stays an error; any other wait can be resumed and keeps the invariant; messages can arrive while a message or a ChangeCipherSpec is awaited |
| ServerHandshake.Run | Dream Journal/Pods/BoringSSL-GRPC/ssl/handshake_server.cc:1539-1621 | over any number of arrivals, waits and retries: messages are hashed once, in arrival order, before release, and a finished TLS 1.2 handshake is complete and proven; if nothing fails, only a message that the client may not send ends it, and it gets as far as the messages that have come allow |
| ServerHandshake.DoneIsComplete | Dream Journal/Pods/BoringSSL-GRPC/ssl/handshake_server.cc:1511-1537 | state_done means one verified client Finished and one sent server Finished, each over the transcript before it, both keys changed, and the messages in the order of RFC 5246; a CertificateVerify was received if and only if the client sent a chain that is not empty; a required certificate was sent; a requested Certificate was received outside SSL 3.0, and an OCSP response was sent if and only if one was expected |
| ServerHandshake.DoneIsProven | Dream Journal/Pods/BoringSSL-GRPC/ssl/handshake_server.cc:1511-1537 | state_done means that what it rests on was checked and passed in some step: the ClientHello, the cipher, the keys of both directions, in a full handshake the premaster and master secrets, with a client certificate its verification and the signature of the CertificateVerify, and the Channel ID if there is one |
| ServerHandshake.ReleaseKeeps | Dream Journal/Pods/BoringSSL-GRPC/ssl/handshake.cc:215-222 | hashing and releasing the next expected message keeps the history in order |
| ServerHandshake.FinishedKeeps | Dream Journal/Pods/BoringSSL-GRPC/ssl/handshake.cc:380-429 | a Finished with the right MAC closes the history of the client |
| ServerHandshake.SendFinishedKeeps | Dream Journal/Pods/BoringSSL-GRPC/ssl/handshake.cc:431-476 | the ChangeCipherSpec is not hashed, the Finished is |

## Left out

- The Swift user interface, its Firebase calls, and every other vendored library.
- Cryptography, certificate and extension parsing, session caches and tickets: arbitrary answers of the environment.
- TLS 1.3: `state_tls13` is one opaque step, and nothing is claimed about a handshake that takes it.
- V2ClientHello messages: the theorems about runs of the server are about messages that are not.
- Channel ID and next-protocol contents, alerts and timers of the handshake, and the info and message callbacks.
- DTLS timers and the choice of when to retransmit: any sequence of passes is covered.
- Handshake message numbers that wrap around at 2^16: the transfer theorems are about fewer than 65536 messages.
- Record numbers after a wrap-around of the 16-bit epoch: the ghost field `wrapped` marks it, and uniqueness is
  claimed before it.
- `ssl3_write_app_data` with a negative or shrunken length: the call fails and forgets the progress, as in the code;
  the guarantee for the caller is for retries with a buffer at least as long as the progress.
- The transcript is part of `ServerHandshake`; in `DtlsSender` and `TlsWriter` it is only a yes or no.
- The read half of the record buffer, and `tls_seal_record` beyond its bounded overhead.
- Overflow of `size_t` in sums of sizes: counters are unbounded, but lengths are cast to 64 bits where they are
  written.
- nanopb callbacks, extensions, pointer fields, `malloc`, fixed-count arrays and the variant without 64-bit integers.
- Default values of descriptors other than zero, and the memory of a struct beyond what a message holds: the contents
  of absent fields and the characters of a string after its terminator.
- A failed decode leaves the struct in a state that is not described.
- Varints of more than ten bytes in the 32-bit decoder are decoded as in the code, with the 8-bit position counter,
  but nothing is proved about their value.
- TlsWriter.Run: order and conservation are claimed for event lists within the bound, because beyond it the code does
  not keep them (see above).
- `dtls1_on_handshake_complete` and the timer: whether the last flight is kept after the handshake.
- When early data starts and what happens to it if the server rejects it: it can only end.
- Handshake records after the handshake (`dtls1_open_app_data`), which only make the sender retransmit.
- `dtls_open_record` on an empty packet, and the consumption of the rest of a packet whose header is malformed:
  records arrive one by one.
- Forged records in epoch 0, where nothing is authenticated: safety and transfer are about runs in which the records
  that pass the record layer come from the sender.
- Null pointers, `malloc` failures, and the contents of error queues.
