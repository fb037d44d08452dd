# Verified models of the vendored BoringSSL and nanopb cores

The app in `bubble/` vendors two C libraries. This project models four pieces of them
in Dafny and proves what each is for.

**DTLS handshake transport** (`d1_both.c`, `dtls_record.c`, `dtls_method.c`).
`ReplayWindow` and `RecordLayer` treat the anti-replay window as a set of record
numbers. `Reassembly` has the byte bitmap, `Receiver` the seven-slot ring as a state
machine, `Delivery` its invariants over whole runs, and `HandshakeReader` the same on
the heap. `Flight` and `FlightCoverage` cut, pack and resume a flight, `FlightWriter`
does so in place, `FlightNumbers` says that no record number is used twice, and
`FlightSucceeds` when a flush does. `RecordInput` takes records out of datagrams, one
a call, `EndToEnd` follows a record from the sender to there, `RecordsPassed` says
what a call passes over and what it stops at, and `Connection` joins record reader and
ring: what is handed out is a prefix of what was sent, while version and cipher change
at any time. `Progress`, `FlightDelivery` and `FlightInOrder` are the other half: what
is handed on is delivered. `ReadCipher` is the change of the read cipher: no message
is put together from records of two ciphers.

**Cipher preference engine** (`ssl_cipher.c`, `ssl3_choose_cipher`). `CipherRules` and
`CipherStrength` are the rules and the strength sort on sequences; `CipherList` is the
doubly linked list that is walked while it is rearranged; `CipherScanner`,
`CipherInvariants` and `CipherConfig` are the rule language and what every string
preserves; `CipherMeaning`, `CipherItems` and `CipherStrings` say what the characters
of a string mean, and `CipherOrder` what order the built-in rules come to;
`CipherBuilder` is the one-pass interpreter on the list; `CipherGroups` says what
brackets mean; `CipherChoice` is the server's selection, and `ServerChoice` runs from
configuration string to chosen cipher.

**nanopb** (`pb_common.c`, `pb_encode.c`, `pb_decode.c`). `Schema` has message
descriptions and struct contents; `Encoding` and `Decoding` say what bytes a struct
becomes and what the decoder makes of bytes; `Merging` and `RoundTrip` prove the laws
between them. `ImplicitPresence` is about fields without a has flag, `OlderSchema`
about fields a schema does not have, `DecodingLaws` about inputs of any content.
`FieldIter`, `FieldsSeen`, `OutStream`, `StreamEncoder`, `InStream` and
`StreamDecoder` are the imperative code, proved to do exactly that.

**Two smaller protocols**: the saturating reference count (`Refcount`), lock-free
against lock-based, and the non-blocking application-data writer (`AppData`).

How the C is represented:

- A class or method follows each function that updates state; its contract equates
  the new state with a function on values, and the theorems are about that function.
- The transport, the AEAD and the network are parameters: sequences of answers, a
  sealing function that is invertible and grows a body by at most its declared
  overhead, and arbitrary arrivals. In `Refcount` a schedule of thread steps is a
  sequence of actions, spurious failures included.
- Handshake bytes are numbers below 256, and the replay map, the reassembly bitmap
  and the required-field words are bit vectors. In the varint code, or-ing groups
  of disjoint bits is written as addition, with the truncation to 32 or 64 bits
  written out.
- Sizes of type `size_t` do not wrap; `pb_size_t` appears as `Config.sizeMax`.

Conditions stated in the contracts, which the code relies on:

- Fewer than 2^16 handshake messages and no epoch wrap, as 65536 is not a multiple
  of 7 and the epoch is 16 bits.
- For `ReadCipher.OneCipherPerMessage`, a change of the read cipher does not follow a
  call that failed and left its record pending (`ReadCipher.PendingCrosses`).
- nanopb schemas have distinct non-zero tags below 2^29 and no embedded message in an
  optional field without a has flag, and numbers of required fields for which
  `StreamDecoder.Checkable` holds. Equality is up to contents behind a false has flag
  and after a string's terminator.

Where the code does not do what is expected of it, the model has the input and the
exact condition:

- The marking of received bytes leaves the bitmap for one kind of input, an empty
  fragment at the end of a message whose length is a multiple of eight
  (`d1_both.c:231-232`): a defect of the code. `Reassembly.MarkStaysInBitmap` states
  when it stays within, and that condition is what `Mark` requires;
  `Delivery.EmptyFragmentLeavesBitmap` is an input; no fragment cut by this sender is
  one (`EndToEnd.SentFragmentsStayInBitmap`). The reader model steps around it: it
  leaves the bitmap alone, and `Reader.AbsorbFragment` reports the case.
- The comment at `d1_both.c:371` says that fragments too far in the future are ignored.
  One exactly seven messages ahead passes that check and is refused by the slot lookup
  (line 272), so the call fails: `Delivery.TooFarIsIgnoredExactly` and
  `Delivery.RefusedExactly`.
- The test of the required-field words is defined for fewer than 64 fields that are not
  a positive multiple of 32: `FieldsSeen.StaysInBoundsExactly`. Other schemas take it out
  of its bounds exactly when the fields of its whole words have occurred
  (`RequiredFields.TestLeavesExactly`); `RequiredFields.ThirtyTwoFieldsLeave` is an input.
- A failed write restores the position in the flight; a sealing error need not:
  `FlightCoverage.SealErrorKeepsPlaceExactly`.
- The words of an item joined by `+` are meant to narrow it one after the other, but an
  alias for a version has to come last: with another alias behind it the item is passed
  over (`ssl_cipher.c:1198-1203`): `CipherItems.SkippedExactly` is the condition,
  `CipherItems.VersionComesLast` the example.
- A string without room for its terminator does not decode, and a zero in a field
  without a has flag comes back as the default: `RoundTrip.DecodeOfEncode` has both
  conditions for whole messages.

`dafny verify dfyconfig.toml` checks everything.

## Model

| member | source | states |
|---|---|---|
| `ReplayWindow.RecordRepresents` | bubble/Pods/BoringSSL/ssl/dtls_record.c:153-173 | if the 64-bit map stands for a set of record numbers, then after recording n it stands for that set with n added, shift, overflow and old numbers included |
| `ReplayWindow.SlideKeepsBits` | bubble/Pods/BoringSSL/ssl/dtls_record.c:158-167 | sliding the window forward loses no number that is still inside it and invents none |
| `ReplayWindow.DiscardsExactly` | bubble/Pods/BoringSSL/ssl/dtls_record.c:138-148 | the window rejects a number if and only if it was recorded before or lies 64 or more below the largest one (RFC 6347, section 4.1.2.6) |
| `RecordLayer.NextIsSound` | bubble/Pods/BoringSSL/ssl/dtls_record.c:204-237 | one arriving record or cipher change keeps: no repeats so far, no epoch ahead of the current one, window equal to the accepted numbers of the epoch |
| `RecordLayer.AcceptedAtMostOnce` | bubble/Pods/BoringSSL/ssl/dtls_record.c:126-237 | over every run of record arrivals and cipher changes without epoch wrap, no (epoch, sequence) pair is accepted twice |
| `RecordLayer.DropsExactly` | bubble/Pods/BoringSSL/ssl/dtls_record.c:204-213 | after any run, a number of the current epoch is refused exactly when it was accepted already or is 64 or more below the largest accepted one |
| `RecordLayer.EpochIsTopOfNumber` | bubble/Pods/BoringSSL/ssl/dtls_record.c:204-206 | the epoch the code reads from the first two sequence bytes is the top of the 64-bit number it feeds to the window |
| `RecordLayer.RecordReader.ToU64Be` | bubble/Pods/BoringSSL/ssl/dtls_record.c:126-134 | the byte loop computes the big-endian value |
| `RecordLayer.RecordReader.BitmapShouldDiscard` | bubble/Pods/BoringSSL/ssl/dtls_record.c:138-148 | agrees with the specification of the window that DiscardsExactly is about |
| `RecordLayer.RecordReader.BitmapRecord` | bubble/Pods/BoringSSL/ssl/dtls_record.c:153-173 | leaves exactly the specified window and touches nothing else |
| `RecordLayer.RecordReader.OpenRecord` | bubble/Pods/BoringSSL/ssl/dtls_record.c:175-250 | is one step of the run model; success exactly on accepted records that are no alerts, malformed packets consumed whole, too long plaintext an error reported only after authentication; an accepted alert ends the connection, is counted or is an error as ssl_process_alert says |
| `RecordLayer.RecordReader.SetReadState` | bubble/Pods/BoringSSL/ssl/dtls_method.c:106-122 | given whether the ring has messages buffered: refuses if so, otherwise starts the next epoch with a fresh window |
| `ReadCipher.ChangeReadCipher` | bubble/Pods/BoringSSL/ssl/dtls_method.c:106-122 | asks the ring and changes the cipher if and only if nothing is buffered beyond the current message: the step of the connection model; the ring stays as it is |
| `ReadCipher.OneCipherPerMessage` | bubble/Pods/BoringSSL/ssl/dtls_method.c:106-122 | over every run on datagrams of any content, with calls and cipher changes at any time: every byte of every message handed out came, as that byte of that message, in a handshake record that lay in one of the datagrams that arrived, was numbered in the epoch in which the message was handed out, and opened under the cipher of that epoch |
| `ReadCipher.RefusalIsNeeded` | bubble/Pods/BoringSSL/ssl/dtls_method.c:107-113 | why the change is refused: were it made while the next message is buffered and whole, a message would be handed out in the new epoch no byte of which came in a record of it |
| `ReadCipher.NoFailureSettles` | bubble/Pods/BoringSSL/ssl/d1_both.c:393-396 | what OneCipherPerMessage asks of a cipher change, that no record is pending, holds if no call before has failed |
| `ReadCipher.PendingCrosses` | bubble/Pods/BoringSSL/ssl/d1_both.c:462-475 | and is needed: the refusal does not look at the record on which a call failed, and a message of such a record is handed out under the next cipher |
| `ReadCipher.LaterBytesCameLater` | bubble/Pods/BoringSSL/ssl/d1_both.c:462-475 | from a ring with nothing buffered beyond the current message and no pending record, every byte handed out later came in a record that arrived later, as that byte of that message |
| `ReadCipher.BufferedBytesCameBefore` | bubble/Pods/BoringSSL/ssl/d1_both.c:462-475 | with the next message buffered and whole, its bytes are handed out although no record arrives any more |
| `RecordInput.HandedIsOpened` | bubble/Pods/BoringSSL/ssl/dtls_record.c:175-250 | whatever the datagrams hold: a record handed on lay in one of them, among its records laid end to end, is numbered in the current epoch, and is what the cipher of that epoch makes of that very body |
| `RecordInput.RecordsOfPrefix` | bubble/Pods/BoringSSL/ssl/ssl_buffer.c:107-127 | cutting a datagram to the size of the buffer leaves out records and adds none |
| `RecordInput.PacketReader.GetRecord` | bubble/Pods/BoringSSL/ssl/d1_pkt.c:128-197 | takes records off the buffered datagram, fetching the next when it is used up, until one is handed on, with the return codes for the end of the connection, errors and a blocked transport: the specification of one call |
| `RecordInput.PacketReader.NextPacket` | bubble/Pods/BoringSSL/ssl/ssl_buffer.c:107-127 | reads one datagram, cut to the capacity, into the empty buffer |
| `RecordInput.PacketReader.OpenFirst` | bubble/Pods/BoringSSL/ssl/d1_pkt.c:154-162 | opens the first record of the buffer and takes the bytes consumed off it |
| `RecordsPassed.GenuineIsHandedOn` | bubble/Pods/BoringSSL/ssl/d1_pkt.c:128-197 | whatever number of replayed, stale, unauthentic or malformed records, datagrams and harmless warnings stand before it: a record of the sender that is of the current epoch, neither repeated nor too old, of the right version and not too long is handed on by the call, and the rest of its datagram is left |
| `RecordsPassed.StopsExactly` | bubble/Pods/BoringSSL/ssl/d1_pkt.c:154-196 | a running call ends with a given code and no record if and only if, behind what it passes over, nothing is left to read, an empty datagram comes, a record opens and is too long, or an alert ends or fails the call |
| `RecordsPassed.OneStep` | bubble/Pods/BoringSSL/ssl/d1_pkt.c:154-196 | what is passed over makes no difference to the call; otherwise it stops there with the code of its kind, or hands on the record and notes its number |
| `RecordsPassed.ShutdownExactly` | bubble/Pods/BoringSSL/ssl/tls_record.c:503-557 | of all that ends a call, only an alert of two bytes ends the connection: a close_notify warning in peace, a fatal one in failure |
| `RecordsPassed.EndedForGood` | bubble/Pods/BoringSSL/ssl/d1_pkt.c:128-152 | once the connection has ended, whatever datagrams come, every call says so again and reads nothing |
| `HandshakeWire.ParseOfSerialize` | bubble/Pods/BoringSSL/ssl/d1_both.c:477-491 | parsing a serialized fragment followed by anything gives back the fragment and the rest |
| `HandshakeWire.FragmentsOfSerialized` | bubble/Pods/BoringSSL/ssl/d1_both.c:477-491 | serialized fragments can be cut apart in one way only |
| `HandshakeWire.HeaderLayout` | bubble/Pods/BoringSSL/ssl/d1_both.c:477-491 | type, message length, sequence, offset and length of a fragment stand in this order, most significant byte first (RFC 6347, section 4.2.2) |
| `Reassembly.WholeHeaderIsHeader` | bubble/Pods/BoringSSL/ssl/d1_both.c:173-181 | the header written in front of a message makes it one fragment that is all of it |
| `Wire.U24RoundTrip` | bubble/Pods/BoringSSL/ssl/d1_both.c:480-486 | 24-bit fields survive writing and reading |
| `Reassembly.BitOfBitRange` | bubble/Pods/BoringSSL/ssl/d1_both.c:212-214 | the byte mask has exactly the bits from start to end |
| `Reassembly.MarkRangeByByte` | bubble/Pods/BoringSSL/ssl/d1_both.c:231-241 | the branchy byte-by-byte marking equals or-ing each bitmap byte with its part of the range |
| `Reassembly.MarkedAfterMarkRange` | bubble/Pods/BoringSSL/ssl/d1_both.c:220-241 | after marking, a bit is set exactly if it was set or its byte is in the range |
| `Reassembly.CompleteMeansAllMarked` | bubble/Pods/BoringSSL/ssl/d1_both.c:244-252 | if the completeness scan succeeds, every byte of the message is marked |
| `Reassembly.AllMarkedMeansComplete` | bubble/Pods/BoringSSL/ssl/d1_both.c:244-252 | if every byte is marked and nothing beyond the message, the scan succeeds |
| `Reassembly.MarksRefineCoverage` | bubble/Pods/BoringSSL/ssl/d1_both.c:220-256 | after any sequence of marks, with overlaps and repeats, each bit is set exactly when its byte was covered, and the scan succeeds exactly when all are |
| `Reassembly.HmFragment.CompleteMeansNoBitmap` | bubble/Pods/BoringSSL/ssl/d1_both.c:243-256 | the bitmap is gone exactly when every byte of the message has been covered |
| `Reassembly.MarkStaysInBitmap` | bubble/Pods/BoringSSL/ssl/d1_both.c:220-241 | the marking touches only bytes of the bitmap if and only if the range is not the empty one at the end of a message whose length is a multiple of eight |
| `Delivery.EmptyFragmentLeavesBitmap` | bubble/Pods/BoringSSL/ssl/d1_both.c:350-390 | a fragment that passes every check of the receiver and whose marking touches the byte behind the bitmap |
| `EndToEnd.SentFragmentsStayInBitmap` | bubble/Pods/BoringSSL/ssl/d1_both.c:671-678 | no fragment that this sender cuts is of that kind |
| `Reassembly.HmFragment.Mark` | bubble/Pods/BoringSSL/ssl/d1_both.c:220-256 | adds exactly the range to the covered bytes and drops the bitmap when that completes the message, for every range whose marking stays in the bitmap |
| `Reassembly.HmFragment.MarkBits` | bubble/Pods/BoringSSL/ssl/d1_both.c:231-241 | the loop sets exactly the bits of the range, in place |
| `Reassembly.HmFragment.Scan` | bubble/Pods/BoringSSL/ssl/d1_both.c:244-252 | the scan with its early exit decides completeness |
| `Reassembly.HmFragment.Accept` | bubble/Pods/BoringSSL/ssl/d1_both.c:387-390 | copies the fragment body to its place and marks it, leaving the rest of the buffer as it was |
| `Reassembly.HmFragment.constructor` | bubble/Pods/BoringSSL/ssl/d1_both.c:156-208 | a new message: header of the whole message written, nothing covered, no bitmap when there is no body |
| `Delivery.SlotHasFragmentSeq` | bubble/Pods/BoringSSL/ssl/d1_both.c:277-290 | the assertion on the sequence of an occupied slot cannot fail under the ring invariant |
| `Delivery.CurrentHasReadSeq` | bubble/Pods/BoringSSL/ssl/d1_both.c:415-419 | the assertion on the message handed out cannot fail |
| `Delivery.RingHolds` | bubble/Pods/BoringSSL/ssl/d1_both.c:260-299 | after any calls with any records, blocked ones included, while fewer than 2^16 messages are handed out: every occupied slot i holds a sequence congruent to i modulo 7 within [read_seq, read_seq + 7) |
| `Delivery.AnswerIsGood` | bubble/Pods/BoringSSL/ssl/d1_both.c:398-430 | one call on honest input either re-reads the current message, hands out the next one byte for byte, or hands out nothing |
| `Delivery.DeliveredIsPrefixOfSent` | bubble/Pods/BoringSSL/ssl/d1_both.c:303-453 | for any drops, repeats and reorderings of honestly cut fragments and any schedule of calls, what is delivered is a prefix of what was sent (RFC 6347, section 4.2.3) |
| `Delivery.RefusedExactly` | bubble/Pods/BoringSSL/ssl/d1_both.c:353-378 | an honest fragment fails the call if and only if its message is too long, or it is not the current message once encrypted, or it is exactly seven messages ahead |
| `Delivery.AnyFragmentFailsExactly` | bubble/Pods/BoringSSL/ssl/d1_both.c:270-378 | any fragment at all, honest or not, fails the call if and only if its range leaves its message, the message is too long, it is not of the current message once encrypted, it is exactly seven messages ahead, or its type or length is not that of what came before for the same message |
| `Delivery.TooFarIsIgnoredExactly` | bubble/Pods/BoringSSL/ssl/d1_both.c:368-373 | a fragment from beyond the ring is ignored if and only if it is more than seven ahead |
| `Delivery.EighthMessageFails` | bubble/Pods/BoringSSL/ssl/d1_both.c:368-378 | a first fragment of the eighth message for which the call fails |
| `Delivery.WholeExactlyWhenArrived` | bubble/Pods/BoringSSL/ssl/d1_both.c:303-396 | over any run of records none of which fails, in either epoch: a message is in its slot and whole exactly when some fragment of it arrived and each of its bytes did; an empty message takes one fragment |
| `Delivery.FeedCovers` | bubble/Pods/BoringSSL/ssl/d1_both.c:303-396 | after a payload of honest fragments that are not refused, a slot is occupied exactly if it was or a fragment of it came, and a byte is covered exactly if it was or some fragment carried it |
| `Progress.AwaitAccounts` | bubble/Pods/BoringSSL/ssl/d1_both.c:398-430 | in either epoch, waiting for the next message, unless it fails, succeeds if and only if all of it has arrived; otherwise the call blocks with every record used; either way ring and unprocessed records still hold exactly what has arrived of the later messages |
| `Progress.NothingIsLost` | bubble/Pods/BoringSSL/ssl/d1_both.c:303-453 | in either epoch and over any schedule of calls, re-reads included, and any cuts, order and repetition of fragments: as long as no call fails and no fragment is more than seven messages ahead, the messages handed out are exactly those of a reader who keeps every fragment, each at the first call at which it is whole |
| `Progress.FlightIsDelivered` | bubble/Pods/BoringSSL/ssl/d1_both.c:303-453 | a flight of at most seven messages all of whose bytes have arrived by the k-th call is handed out whole, once each message has had a call, if none fails |
| `Progress.RecordFailsExactly` | bubble/Pods/BoringSSL/ssl/d1_both.c:330-396 | an honest record fails the call if and only if it is neither one that is skipped nor a handshake record without a refused fragment |
| `Progress.OtherRecordFailsExactly` | bubble/Pods/BoringSSL/ssl/d1_both.c:303-335 | a record of another kind is passed over if and only if it is application data under a read cipher or a ChangeCipherSpec without one; any other fails the call |
| `Progress.PlainCallsDoNotFail` | bubble/Pods/BoringSSL/ssl/d1_both.c:303-396 | in the clear, with room in the ring for all messages and none too long, no call fails |
| `FlightDelivery.FlightGetsThrough` | bubble/Pods/BoringSSL/ssl/d1_both.c:303-811 | sender to receiver, in both epochs: messages queued in one flight, flushed at any MTUs until it is reported sent; datagrams arrive in any order and number, the record reader hands on every record of the flight at least once, and no call fails; then as soon as a call for a message hands out nothing, all messages are out, in order and byte for byte |
| `FlightDelivery.PartitionHolds` | bubble/Pods/BoringSSL/ssl/d1_both.c:622-758 | the pieces of a whole flight hold every byte of every message queued in it |
| `FlightInOrder.FlightInOrderIsHandedOut` | bubble/Pods/BoringSSL/ssl/d1_both.c:303-811 | a flight in the clear, flushed however often writes fail until it is reported sent, whose packets arrive in the order in which they left: one call for each message, and all messages are out, in order and byte for byte; that no record is refused and no call fails is proved, not assumed |
| `FlightInOrder.FlushedFlightArrives` | bubble/Pods/BoringSSL/ssl/d1_both.c:303-811 | the same from one flush on, with nothing assumed of its outcome: a sender that can seal, an MTU with room for a piece, a transport that takes every packet and keeps their order |
| `FlightInOrder.FlightWillBeAccepted` | bubble/Pods/BoringSSL/ssl/dtls_record.c:126-250 | because its numbers increase, every record of such a flight is accepted by a reader just connected |
| `FlightInOrder.PlainRunDoesNotFail` | bubble/Pods/BoringSSL/ssl/d1_both.c:303-453 | while the read cipher does not change and no message is too long, no call fails, whatever packets arrive and when |
| `HandshakeReader.Reader.GetIncomingMessage` | bubble/Pods/BoringSSL/ssl/d1_both.c:270-299 | finds or creates the slot for a fragment on the heap exactly as the ring model says, refusing fragments from before the current message, mismatched types and lengths and the eighth message ahead |
| `HandshakeReader.Reader.Insert` | bubble/Pods/BoringSSL/ssl/d1_both.c:292-298 | puts one fresh message into one empty slot and changes no other |
| `HandshakeReader.Reader.AbsorbFragment` | bubble/Pods/BoringSSL/ssl/d1_both.c:381-390 | absorbs the fragment into the right slot only; a complete message ignores it; reports whether the code stays within the bitmap, and leaves the bitmap alone where it does not |
| `HandshakeReader.Reader.TakeOne` | bubble/Pods/BoringSSL/ssl/d1_both.c:350-391 | one turn of the fragment loop is one step of the ring model, errors included |
| `HandshakeReader.Reader.FeedRecord` | bubble/Pods/BoringSSL/ssl/d1_both.c:337-391 | the fragment loop refines the ring model over the whole payload |
| `HandshakeReader.Reader.ProcessRecord` | bubble/Pods/BoringSSL/ssl/d1_both.c:303-396 | fetches and processes one handshake record as specified, including blocked reads and records out of order |
| `HandshakeReader.Reader.ReleaseCurrent` | bubble/Pods/BoringSSL/ssl/d1_both.c:440-453 | frees the current slot and advances read_seq modulo 2^16 |
| `HandshakeReader.Reader.IsCurrentMessageComplete` | bubble/Pods/BoringSSL/ssl/d1_both.c:260-264 | true exactly if the front message has all its bytes |
| `HandshakeReader.Reader.HasIncomingMessages` | bubble/Pods/BoringSSL/ssl/d1_both.c:462-475 | true exactly if a slot other than the current message is occupied |
| `HandshakeReader.Reader.GetMessage` | bubble/Pods/BoringSSL/ssl/d1_both.c:398-430 | on the heap, one call is one step of the model that DeliveredIsPrefixOfSent is about, and hands out that model's message |
| `FlightWriter.Writer.FinishMessage` | bubble/Pods/BoringSSL/ssl/d1_both.c:506-534 | the message built in two steps is the whole fragment under the next sequence number |
| `FlightWriter.Writer.AddOutgoing` | bubble/Pods/BoringSSL/ssl/d1_both.c:540-572 | queues the message last, under the current epoch, and counts handshake messages modulo 2^16; a full flight or a failed transcript update is refused |
| `FlightWriter.Writer.ClearOutgoing` | bubble/Pods/BoringSSL/ssl/d1_both.c:496-504 | the flight is emptied and the position reset, keys and numbers kept |
| `FlightWriter.Writer.SetWriteState` | bubble/Pods/BoringSSL/ssl/dtls_method.c:124-133 | the write epoch advances, the old sequence number is kept for epoch 0 and the new one starts at zero |
| `FlightWriter.Writer.SealRecord` | bubble/Pods/BoringSSL/ssl/dtls_record.c:275-334 | writes header and sealed body under the right epoch, key and number, and advances only that number; NumbersAreDistinct says what for |
| `FlightNumbers.NumbersAreDistinct` | bubble/Pods/BoringSSL/ssl/dtls_record.c:275-334 | over the life of a sender, with flushes at any MTUs, failed writes, sealing errors, rewinds, queued and cleared messages and the change of cipher between them: the numbers of all records that go out are pairwise distinct, and increase within an epoch |
| `FlightNumbers.FlushNumbers` | bubble/Pods/BoringSSL/ssl/d1_both.c:760-800 | the numbers of one flush were unused before it, increase within an epoch, and are used up after it |
| `EndToEnd.RecordLayout` | bubble/Pods/BoringSSL/ssl/dtls_record.c:303-326 | type, version, epoch, 48-bit sequence number and length of a record stand in this order, most significant byte first (RFC 6347, section 4.1) |
| `FlightWriter.Writer.SealNextMessage` | bubble/Pods/BoringSSL/ssl/d1_both.c:622-712 | seals the next piece of the next message exactly as specified |
| `FlightWriter.Writer.SealNextPacket` | bubble/Pods/BoringSSL/ssl/d1_both.c:717-758 | the packet written into the buffer is the specified one and never longer than the buffer |
| `FlightWriter.Writer.FlushFlight` | bubble/Pods/BoringSSL/ssl/d1_both.c:760-800 | what goes out, what comes back and the position kept are those of the specification; terminates while writes succeed |
| `FlightWriter.Writer.RewindFlight` | bubble/Pods/BoringSSL/ssl/d1_both.c:802-811 | a retransmission starts the same flight from the beginning |
| `Flight.SealPacket` | bubble/Pods/BoringSSL/ssl/d1_both.c:717-758 | every packet fits the room given and holds at least one record unless progress was made before; the position advances |
| `Flight.Flush` | bubble/Pods/BoringSSL/ssl/d1_both.c:760-800 | no packet is empty and none exceeds the MTU |
| `FlightCoverage.FlushWalks` | bubble/Pods/BoringSSL/ssl/d1_both.c:760-800 | unless sealing fails, the sender stands exactly after the pieces that went out, so a failed write restores the position |
| `FlightCoverage.WalkIsPartition` | bubble/Pods/BoringSSL/ssl/d1_both.c:622-758 | the pieces of a complete walk partition every message body: contiguous, disjoint, in order, non-empty where the body is |
| `FlightCoverage.ResumedFlightIsWhole` | bubble/Pods/BoringSSL/ssl/d1_both.c:760-811 | however often writes fail, the packets sent before the flight is reported sent partition every message: no byte lost, none twice |
| `FlightCoverage.RewoundIsReady` | bubble/Pods/BoringSSL/ssl/d1_both.c:802-811 | rewinding leads back to a state from which the whole flight is sent again |
| `FlightCoverage.CompleteExactly` | bubble/Pods/BoringSSL/ssl/d1_both.c:622-712 | a message is sealed whole if and only if what is left of it fits and its cipher, number and length allow the record |
| `FlightCoverage.FailedPacketPlace` | bubble/Pods/BoringSSL/ssl/d1_both.c:717-758 | a packet that cannot be made leaves the position alone if and only if its first message was not sealed whole |
| `FlightCoverage.SealErrorKeepsPlaceExactly` | bubble/Pods/BoringSSL/ssl/d1_both.c:760-800 | a flush that ends in a sealing error stands after what went out if and only if the packet it was making did not begin with a message sealed whole |
| `FlightCoverage.SealErrorLosesPlace` | bubble/Pods/BoringSSL/ssl/d1_both.c:770-787 | the flight ChangeCipherSpec, Finished, at any counters, with a cipher that fails on handshake bodies only: the ChangeCipherSpec never leaves and is passed over |
| `FlightCoverage.RoomMeansProgress` | bubble/Pods/BoringSSL/ssl/d1_both.c:671-678 | an MTU with room for the headers, the overhead and one byte always lets a piece out |
| `FlightCoverage.PacketIsFull` | bubble/Pods/BoringSSL/ssl/d1_both.c:717-758 | a packet that ends between two messages has no room for a record of the next one |
| `FlightCoverage.PartialFillsRoom` | bubble/Pods/BoringSSL/ssl/d1_both.c:671-678 | a piece that does not end its message fills the room with header, overhead and body |
| `FlightCoverage.RefusedWriteEnds` | bubble/Pods/BoringSSL/ssl/d1_both.c:779-787 | a write that the transport refuses ends the flush with its answer, and the position is that before the packet |
| `FlightSucceeds.FlushSucceeds` | bubble/Pods/BoringSSL/ssl/d1_both.c:760-800 | with ciphers that seal, numbers left, room for one piece in a packet and a transport that takes what it is given, a flush reports the whole flight sent |
| `FlightSucceeds.PacketIsMade` | bubble/Pods/BoringSSL/ssl/d1_both.c:717-758 | under the same conditions a packet is made, each of its records leaving less to send; one that made progress may also end for want of room |
| `EndToEnd.ParseRecordOfBytes` | bubble/Pods/BoringSSL/ssl/dtls_record.c:303-326 | a record parses back to its type, version, number and body |
| `EndToEnd.PacketOpens` | bubble/Pods/BoringSSL/ssl/d1_both.c:717-758 | every record of a sent packet opens under the peer keys to exactly what was sealed into it |
| `EndToEnd.GenuineIsAcceptedExactly` | bubble/Pods/BoringSSL/ssl/dtls_record.c:175-250 | a sent record at the front of the buffer is handed on if and only if version and length fit, its epoch is current, its number is neither repeated nor too old, and its content is not too long; otherwise which error or discard it is, and what is left |
| `EndToEnd.CutShortIsDropped` | bubble/Pods/BoringSSL/ssl/dtls_record.c:186-201 | a sent record that the buffer cuts short is dropped with the rest of it |
| `EndToEnd.HandedIsOffTheWire` | bubble/Pods/BoringSSL/ssl/d1_pkt.c:128-197 | a call for a record hands on what was sealed into a packet that was sent, from wherever in the packet it goes on |
| `Connection.AwaitOnIsAwait` | bubble/Pods/BoringSSL/ssl/d1_both.c:303-430 | fetching records one at a time, as the ring runs out of them, comes to the same as having them all at the start |
| `Connection.RunIsCalls` | bubble/Pods/BoringSSL/ssl/d1_both.c:398-430 | a run of the connection hands out what the ring hands out for the records that its calls fetch |
| `Connection.CallsDoNotFail` | bubble/Pods/BoringSSL/ssl/d1_both.c:398-430 | no call of a run of the connection fails if and only if none of the calls on the ring does |
| `Connection.GetMessage` | bubble/Pods/BoringSSL/ssl/d1_both.c:398-430 | on the heap, ring and packet reader together are one call of the connection model, and hand out its message |
| `Connection.NetworkDeliversPrefix` | bubble/Pods/BoringSSL/ssl/d1_both.c:303-811 | end to end: flights flushed at any MTUs with failed writes and retransmissions, packets dropped, repeated and reordered, records taken out of them one at a time across versions, epochs and the replay window, with version and cipher changing at any time, in the middle of a datagram too; the messages handed out are a prefix of the messages sent |
| `EndToEnd.QueueMessage` | bubble/Pods/BoringSSL/ssl/d1_both.c:506-580 | queueing keeps the flight one of the messages sent, each under its own number, and the write sequence their count |
| `EndToEnd.OffTheWireIsHonest` | bubble/Pods/BoringSSL/ssl/d1_both.c:622-811 | any handshake record taken from any packet of any flush of the sent messages holds an honest cut of one of them |
| `CipherRules.EarlyExitIsSound` | bubble/Pods/BoringSSL/ssl/ssl_cipher.c:915-919 | a rule with an empty algorithm mask, which returns early, would have selected nothing |
| `CipherRules.NothingToApply` | bubble/Pods/BoringSSL/ssl/ssl_cipher.c:915-919 | such a rule leaves every list as it is |
| `CipherRules.NeighbourIsNext` | bubble/Pods/BoringSSL/ssl/ssl_cipher.c:937-948 | while the list is rearranged under the walk, the neighbour stepped to is the next node of the original list |
| `CipherRules.ProgressForward` | bubble/Pods/BoringSSL/ssl/ssl_cipher.c:971-1019 | one step of the forward walk takes the half-rearranged list to the next one, for ADD, ORD and KILL |
| `CipherRules.ProgressBackward` | bubble/Pods/BoringSSL/ssl/ssl_cipher.c:988-997 | the same for DEL, which walks from the tail |
| `CipherRules.ProgressEnds` | bubble/Pods/BoringSSL/ssl/ssl_cipher.c:938-1022 | after the last step the list is: moved entries at the tail (ADD, ORD) or head (DEL) in their old order, killed ones gone, all others in their old order |
| `CipherList.List.AppendTail` | bubble/Pods/BoringSSL/ssl/ssl_cipher.c:814-832 | the pointer surgery moves one node to the tail; both chains stay mirror images without repeats |
| `CipherList.List.AppendHead` | bubble/Pods/BoringSSL/ssl/ssl_cipher.c:834-852 | the same to the head |
| `CipherList.List.Unlink` | bubble/Pods/BoringSSL/ssl/ssl_cipher.c:998-1018 | the same for a node taken out of the list |
| `CipherList.List.VisitNode` | bubble/Pods/BoringSSL/ssl/ssl_cipher.c:949-1018 | the loop body does to the linked list what one step of the walk does to the sequence |
| `CipherList.List.ApplyRule` | bubble/Pods/BoringSSL/ssl/ssl_cipher.c:906-1023 | the walk over the list it mutates terminates, keeps it well formed and refines the sequence form of the rule |
| `CipherList.List.FindMaxStrength` | bubble/Pods/BoringSSL/ssl/ssl_cipher.c:1033-1041 | finds the greatest strength among active ciphers |
| `CipherList.List.CountStrengths` | bubble/Pods/BoringSSL/ssl/ssl_cipher.c:1043-1057 | counts, per strength, the active ciphers that have it |
| `CipherList.List.SortByStrength` | bubble/Pods/BoringSSL/ssl/ssl_cipher.c:1025-1068 | counting and then one ORD pass per strength in use refines the sequence form of the sort |
| `CipherStrength.StrengthSortForm` | bubble/Pods/BoringSSL/ssl/ssl_cipher.c:1059-1064 | the passes amount to: inactive ciphers, then each strength from the greatest down |
| `CipherStrength.StrengthSortIsStable` | bubble/Pods/BoringSSL/ssl/ssl_cipher.c:1025-1068 | @STRENGTH puts inactive ciphers first in their old order, then active ones by descending strength, ties in their old order |
| `CipherInvariants.RunKeepsSuffix` | bubble/Pods/BoringSSL/ssl/ssl_cipher.c:1070-1255 | whatever commands run, the active ciphers stay a suffix of the list |
| `CipherInvariants.RunCiphers` | bubble/Pods/BoringSSL/ssl/ssl_cipher.c:1070-1255 | commands never add or repeat a cipher, counted with multiplicity |
| `CipherInvariants.KilledStaysOut` | bubble/Pods/BoringSSL/ssl/ssl_cipher.c:998-1018 | a cipher removed by a ! rule is absent whatever commands came before and come after |
| `CipherMeaning.BannedStaysOut` | bubble/Pods/BoringSSL/ssl/ssl_cipher.c:1082-1246 | a cipher that an item behind a ! selects, outside brackets, is not in the list that the string leaves, whatever stands before and after |
| `CipherMeaning.BannedIsNotPreferred` | bubble/Pods/BoringSSL/ssl/ssl_cipher.c:1258-1409 | nor is it among the preferences of an accepted configuration whose rules ban it |
| `CipherMeaning.OperatorMeans` | bubble/Pods/BoringSSL/ssl/ssl_cipher.c:1111-1122 | what the three characters do to the enabled and disabled ciphers: - disables those selected and keeps them in front of the disabled ones; + puts the enabled ones selected last in their old order and disables none; ! removes |
| `CipherMeaning.PlainMeans` | bubble/Pods/BoringSSL/ssl/ssl_cipher.c:971-980 | an item without operator enables the disabled ciphers it selects, last and in list order |
| `CipherMeaning.StrengthMeans` | bubble/Pods/BoringSSL/ssl/ssl_cipher.c:1224-1246 | @STRENGTH outside brackets sorts by strength; what is left up to the next separator is passed over |
| `CipherMeaning.DashThenItem` | bubble/Pods/BoringSSL/ssl/ssl_cipher.c:988-997 | a cipher that - disables is enabled again by an item behind it that selects it |
| `CipherMeaning.ApplyMeans` | bubble/Pods/BoringSSL/ssl/ssl_cipher.c:938-1022 | each rule kind on enabled and disabled ciphers, as two lists |
| `CipherItems.ItemSelects` | bubble/Pods/BoringSSL/ssl/ssl_cipher.c:1148-1222 | a single word that names a cipher selects by its id; any other item that is not passed over selects exactly the ciphers that each of its words selects |
| `CipherItems.SkippedExactly` | bubble/Pods/BoringSSL/ssl/ssl_cipher.c:1191-1222 | an item that names no cipher is passed over if and only if one of its words is unknown, or one that names a version has another behind it that does not name the same |
| `CipherItems.VersionComesLast` | bubble/Pods/BoringSSL/ssl/ssl_cipher.c:1198-1203 | so with an alias for a version first and another alias behind it, the item is passed over; the other way round it is not |
| `CipherStrings.RejectedExactly` | bubble/Pods/BoringSSL/ssl/ssl_cipher.c:1157-1222 | an item is rejected if and only if a word is missing at its beginning or behind a +, or in strict mode one of its words is unknown and it is not the name of a cipher |
| `CipherStrings.BracketMeans` | bubble/Pods/BoringSSL/ssl/ssl_cipher.c:1082-1246 | two items in a bracket are both added, as one group that ends at the bracket |
| `CipherStrings.DefaultMeansAll` | bubble/Pods/BoringSSL/ssl/ssl_cipher.c:1338-1353 | a prefix DEFAULT, alone or before a colon, means the item ALL in its place, rejected strings included |
| `CipherStrings.ScanAhead` | bubble/Pods/BoringSSL/ssl/ssl_cipher.c:1082-1246 | what a rule string means from a position on does not depend on what stands before |
| `CipherStrings.WordExactly` | bubble/Pods/BoringSSL/ssl/ssl_cipher.c:1157-1170 | a word goes on exactly as long as there are letters, digits, hyphens and dots |
| `CipherStrings.SpacesPass` | bubble/Pods/BoringSSL/ssl/ssl_cipher.c:1143-1146 | colons, semicolons, commas and blanks change nothing |
| `CipherInvariants.ScanKeepsGroups` | bubble/Pods/BoringSSL/ssl/ssl_cipher.c:1070-1255 | running an accepted rule string leaves the last entry closed |
| `CipherInvariants.NoBracketNoGroup` | bubble/Pods/BoringSSL/ssl/ssl_cipher.c:1070-1255 | a rule string without an opening bracket opens no group |
| `CipherScanner.RunConcat` | bubble/Pods/BoringSSL/ssl/ssl_cipher.c:1338-1353 | running the commands of two strings in turn is running their concatenation |
| `CipherConfig.AcceptedConfigIsSound` | bubble/Pods/BoringSSL/ssl/ssl_cipher.c:1258-1409 | for every accepted configuration string the result is a suffix of the list, ends in a closed group, and holds no cipher more often than the compiled-in list |
| `CipherBuilder.ReadSelector` | bubble/Pods/BoringSSL/ssl/ssl_cipher.c:1157-1222 | the inner loop over words joined by + narrows the selector as specified, strict mode included |
| `CipherBuilder.TakeTurn` | bubble/Pods/BoringSSL/ssl/ssl_cipher.c:1082-1246 | one turn of the interpreter loop does to the linked list what the scanned commands do to the sequence |
| `CipherBuilder.ProcessRuleString` | bubble/Pods/BoringSSL/ssl/ssl_cipher.c:1070-1255 | interpreting the string in one pass over the linked list equals scanning it and then running the commands; rejected exactly when the scan is |
| `CipherBuilder.CreateCipherList` | bubble/Pods/BoringSSL/ssl/ssl_cipher.c:1258-1409 | the preferences returned are those of the specification, None exactly when the string is rejected, the last group is closed, and no cipher that the rules ban with ! is among them |
| `CipherBuilder.CollectCiphers` | bubble/Pods/BoringSSL/ssl/ssl_cipher.c:854-895 | the ciphers the method supports, but for TLS 1.3, in order, disabled and ungrouped, in a well-formed list |
| `CipherGroups.StringGroupsAreBrackets` | bubble/Pods/BoringSSL/ssl/ssl_cipher.c:1070-1255 | what brackets mean: after an accepted rule string, two of the preferences are in one group if and only if the same bracket of the string added both |
| `CipherGroups.ConfiguredGroupsAreBrackets` | bubble/Pods/BoringSSL/ssl/ssl_cipher.c:1258-1409 | the same of the preferences of any accepted configuration string; what the built-in order and a DEFAULT prefix add is in no group |
| `CipherGroups.GroupedTurnAppends` | bubble/Pods/BoringSSL/ssl/ssl_cipher.c:1082-1246 | once a bracket was seen, a turn of the interpreter appends ciphers and moves or drops none that are enabled |
| `CipherGroups.ScanLabels` | bubble/Pods/BoringSSL/ssl/ssl_cipher.c:1082-1246 | from any point of the string on, flags join exactly the neighbours that one bracket added, and the last flag is set exactly inside the open bracket |
| `ServerChoice.ConfigureAndChoose` | bubble/Pods/BoringSSL/ssl/handshake_server.c:719-796 | from configuration string to cipher: the list is built on the heap and the cipher chosen from it; the string is rejected exactly when its scan is; the groups are the brackets; the cipher is the declarative choice, and there is none if and only if no acceptable cipher is shared |
| `CipherChoice.ChooseCipher` | bubble/Pods/BoringSSL/ssl/handshake_server.c:719-796 | returns the declarative choice: the earliest group with an acceptable cipher, and in it the one earliest in the other list; NULL exactly if every acceptable cipher is in a group left open |
| `CipherChoice.ChoiceIsUnique` | bubble/Pods/BoringSSL/ssl/handshake_server.c:754-792 | the declarative choice determines the cipher |
| `CipherOrder.AcceptableExactly` | bubble/Pods/BoringSSL/ssl/handshake_server.c:754-760 | a cipher may be chosen if and only if the client has it too, key exchange and authentication are shared, and the version is one it is defined for: TLS 1.3 for ciphers of that version, TLS 1.2 for those with a hash of their own, any earlier one for the rest |
| `CipherOrder.ChosenIsDefined` | bubble/Pods/BoringSSL/ssl/handshake_server.c:719-796 | the chosen cipher is one of both lists and meets these conditions |
| `CipherChoice.ClosedGroupsNeverMiss` | bubble/Pods/BoringSSL/ssl/handshake_server.c:786-795 | with closed groups, NULL exactly when no acceptable shared cipher exists |
| `CipherChoice.ChooseConfigured` | bubble/Pods/BoringSSL/ssl/handshake_server.c:719-796 | with the ciphers and flags of any accepted configuration string, the answer is the declarative choice, and NULL if and only if no acceptable cipher is shared |
| `CipherChoice.ConfiguredServerNeverMisses` | bubble/Pods/BoringSSL/ssl/ssl_cipher.c:1090-1098 | with such a list, an acceptable shared cipher exists if and only if one exists whose group is closed |
| `CipherBuilder.FindCipherId` | bubble/Pods/BoringSSL/ssl/ssl_cipher.c:1180-1190 | the id of the first cipher with the name, zero if there is none |
| `CipherBuilder.FindAlias` | bubble/Pods/BoringSSL/ssl/ssl_cipher.c:1191-1216 | the first alias with the name, or past the end |
| `CipherBuilder.RunRule` | bubble/Pods/BoringSSL/ssl/ssl_cipher.c:1148-1246 | reads one rule and applies it to the list as the scanned commands would; on an error the list is as it was |
| `CipherList.List.CloseTail` | bubble/Pods/BoringSSL/ssl/ssl_cipher.c:1090-1098 | only the in-group flag of the last entry changes |
| `CipherList.List.ActiveCiphers` | bubble/Pods/BoringSSL/ssl/ssl_cipher.c:1371-1377 | the active ciphers in list order with their group flags |
| `CipherBuilder.RunPlain` | bubble/Pods/BoringSSL/ssl/ssl_cipher.c:1278-1334 | the built-in ordering rules in turn, as the specification lists them |
| `CipherOrder.BuiltInOrder` | bubble/Pods/BoringSSL/ssl/ssl_cipher.c:1278-1334 | the built-in rules leave every cipher disabled and in the order of preference: forward secrecy first; then AEADs, ChaCha20 first without AES in hardware, AES-128, AES-256, triple DES; then ECDHE with ECDSA, ECDHE, the rest; ties in the order compiled in |
| `CipherOrder.FirstItemInOrder` | bubble/Pods/BoringSSL/ssl/ssl_cipher.c:1278-1353 | the first item of the rules, such as ALL, enables what it selects in that order |
| `CipherOrder.StrongComesFirst` | bubble/Pods/BoringSSL/ssl/ssl_cipher.c:1025-1068 | @STRENGTH puts AES-256 and ChaCha20 before AES-128, and these before triple DES |
| `Refcount.NextIsAtomic` | bubble/Pods/BoringSSL/crypto/refcount_c11.c:37-65 | one step of any thread either leaves the count alone or has exactly the effect and answer of one atomic operation |
| `Refcount.RunIsAtomic` | bubble/Pods/BoringSSL/crypto/refcount_c11.c:37-65 | for any threads, interleaving and spurious failures, the completed calls replay one at a time on the lock-based reference with the same answers and the same final count |
| `Refcount.BelowMaxCounts` | bubble/Pods/BoringSSL/crypto/refcount_lock.c:29-51 | below the maximum the count is the initial value plus increments minus decrements |
| `Refcount.SaturatedForGood` | bubble/Pods/BoringSSL/crypto/refcount_c11.c:40-64 | from the maximum the count never changes and no decrement reports zero |
| `Refcount.ZeroIsReportedLast` | bubble/Pods/BoringSSL/crypto/refcount_c11.c:49-65 | when no increment starts from zero, a report of zero is the last operation |
| `Refcount.CounterIsSafe` | bubble/Pods/BoringSSL/crypto/refcount_c11.c:37-65 | these hold for every run of the lock-free counter; at most one decrement reports zero |
| `Refcount.ZeroIsReportedExactly` | bubble/Pods/BoringSSL/crypto/refcount_c11.c:49-65 | a decrement reports zero if and only if it takes the count from one to zero |
| `Refcount.ZeroIsReportedOnce` | bubble/Pods/BoringSSL/crypto/refcount_c11.c:37-65 | over every run that begins above zero and does not revive: the count is zero at the end if and only if exactly one call reported it |
| `Refcount.TurnFailsExactly` | bubble/Pods/BoringSSL/crypto/refcount_c11.c:37-65 | a turn inside a call completes it, unless it aborts, the exchange fails spuriously or the count is no longer what was read; then the thread goes by the count it found |
| `Refcount.ReadInCall` | bubble/Pods/BoringSSL/crypto/refcount_c11.c:37-64 | the value a thread goes by was the count at some moment within its own call |
| `Refcount.AbortIsAtomic` | bubble/Pods/BoringSSL/crypto/refcount_c11.c:49-65 | over every run that aborts: at some step within the aborting decrement the count was zero, and there the reference, after the calls completed by then, aborts too |
| `Refcount.AbortAfterRevival` | bubble/Pods/BoringSSL/crypto/refcount_c11.c:49-65 | a run that aborts although the count has risen to one again |
| `Refcount.LockedCounter.Increment` | bubble/Pods/BoringSSL/crypto/refcount_lock.c:29-35 | the lock-based increment is the atomic saturating one |
| `Refcount.LockedCounter.DecrementAndTestZero` | bubble/Pods/BoringSSL/crypto/refcount_lock.c:37-51 | the lock-based decrement is the atomic one, abort included |
| `AppData.RecordsThenOne` | bubble/Pods/BoringSSL/ssl/s3_pkt.c:213-235 | the records of some full chunks followed by one more chunk are the records of the concatenation |
| `AppData.ChunkAdvances` | bubble/Pods/BoringSSL/ssl/s3_pkt.c:223-234 | a call for one chunk keeps the state part-way through the same write, or moves it on by exactly the chunk |
| `AppData.Writer.FlushBuffer` | bubble/Pods/BoringSSL/ssl/ssl_buffer.c:263-276 | whatever the transport takes, wire plus pending bytes stay the same; the buffer is freed exactly when all is gone, at once if the transport takes it all; a transport that refuses gives the return value |
| `AppData.Writer.Consume` | bubble/Pods/BoringSSL/ssl/ssl_buffer.c:60-67 | moves n bytes from the pending end to the wire |
| `AppData.Writer.WritePending` | bubble/Pods/BoringSSL/ssl/s3_pkt.c:238-253 | resumes the pending record without losing or repeating a byte; a retry with other arguments is refused and writes nothing, any other returns the size of the chunk as soon as the transport takes it |
| `AppData.Writer.SealChunk` | bubble/Pods/BoringSSL/ssl/s3_pkt.c:279-290 | the pending bytes become the sealed chunk under the next number, or nothing changes; it succeeds if and only if the buffer is free, the record fits and the cipher seals |
| `AppData.Writer.WriteChunk` | bubble/Pods/BoringSSL/ssl/s3_pkt.c:256-301 | either finishes the pending record or adds exactly one sealed chunk; with room, a cipher that seals and a transport that takes everything it returns the whole size |
| `AppData.Writer.WriteNext` | bubble/Pods/BoringSSL/ssl/s3_pkt.c:213-235 | the next chunk of the data moves the write on by exactly that chunk or leaves it part-way |
| `AppData.Writer.WriteAppData` | bubble/Pods/BoringSSL/ssl/s3_pkt.c:191-236 | from part-way through a write it ends part-way or with exactly the records of the data written; a shrunken buffer is refused; with room for a chunk, a cipher that seals and a transport that takes everything it returns the length of the data |
| `AppData.Writer.WriteUntilDone` | bubble/Pods/BoringSSL/ssl/s3_pkt.c:191-301 | a caller that retries with the same data until done gets exactly the records of its consecutive chunks on the wire, in order, once each, for any schedule of short and blocked writes; if it gives up, exactly those of a front part are on the wire or pending |
| `Varint.RoundTrip64` | bubble/Pods/nanopb/pb_encode.c:494-514 | every 64-bit value takes one to ten bytes and decodes back, whatever follows |
| `Varint.RoundTrip32` | bubble/Pods/nanopb/pb_decode.c:173-207 | every 32-bit value takes at most five bytes and decodes back |
| `Varint.EncodeDigits` | bubble/Pods/nanopb/pb_encode.c:494-514 | the bytes of a varint are the base 128 digits, least significant first, with the top bit set in all but the last |
| `Varint.EncodeIsShort` | bubble/Pods/nanopb/pb_encode.c:494-514 | there are no more of them than the number needs |
| `Varint.Decode32AgreesWith64` | bubble/Pods/nanopb/pb_decode.c:173-229 | where the 32-bit decoder succeeds the 64-bit one reads the same bytes, and the results agree modulo 2^32 |
| `Varint.ZigZagByShifting` | bubble/Pods/nanopb/pb_encode.c:516-525 | shift and complement on unsigned 64-bit words compute the ZigZag numbering in both directions, and undo each other |
| `Varint.ZigZagRoundTrip` | bubble/Pods/nanopb/pb_encode.c:516-525 | zigzag encoding of every signed 64-bit value fits 64 bits and decodes back |
| `Varint.UnZigZagRoundTrip` | bubble/Pods/nanopb/pb_decode.c:1118-1130 | zigzag decoding of every 64-bit word is a signed 64-bit value and encodes back |
| `Encoding.LittleRoundTrip` | bubble/Pods/nanopb/pb_encode.c:527-551 | fixed-width little-endian bytes give back the number |
| `Encoding.LittleDigits` | bubble/Pods/nanopb/pb_encode.c:527-551 | byte k of a fixed-width number is digit k in base 256 |
| `Encoding.RecordBegins` | bubble/Pods/nanopb/pb_encode.c:553-590 | a record begins with its field number above three bits of wire type: 0 for varints, 1 for eight bytes, 5 for four, 2 for a length and what it counts |
| `FieldIter.Iterator.constructor` | bubble/Pods/nanopb/pb_common.c:8-18 | starts at the first field with its data, size and required index |
| `FieldIter.Iterator.Next` | bubble/Pods/nanopb/pb_common.c:20-76 | data pointer, size pointer and required index remain functions of the position alone, across wraps and unions |
| `FieldIter.Iterator.Advance` | bubble/Pods/nanopb/pb_common.c:31-73 | the step within the message: pointers move on by the size of the field left, except inside a union |
| `FieldIter.Iterator.Find` | bubble/Pods/nanopb/pb_common.c:78-95 | stops within one lap at the next matching non-extension field and succeeds exactly if there is one; otherwise the position is where it was |
| `FieldIter.UnionSharesMemory` | bubble/Pods/nanopb/pb_common.c:44-50 | members of one union share data and size pointer, and the field after it starts behind the last member |
| `FieldIter.FieldsDoNotOverlap` | bubble/Pods/nanopb/pb_common.c:51-73 | outside unions a later field never overlaps an earlier one |
| `FieldIter.ElementsDoNotOverlap` | bubble/Pods/nanopb/pb_common.c:51-73 | element k of a static array ends before the data of every later field outside the union; so do a pointer and a single field |
| `FieldIter.NextFollowsArray` | bubble/Pods/nanopb/pb_common.c:51-73 | the field after a static array is at its own offset from the end of the last element |
| `FieldsSeen.MarkSeen` | bubble/Pods/nanopb/pb_decode.c:908-913 | setting a field's bit sets that bit and no other |
| `FieldsSeen.AllSeen` | bubble/Pods/nanopb/pb_decode.c:937-949 | for every count: the word-by-word test leaves its bounds exactly when its whole words are full and the count is 64 or more or a multiple of 32; otherwise it succeeds exactly when all bits of the required fields are set |
| `FieldsSeen.StaysInBoundsExactly` | bubble/Pods/nanopb/pb_decode.c:940-948 | no contents of the two words take the test out of its bounds if and only if the count is below 64 and not a positive multiple of 32 |
| `StreamDecoder.NumbersCheckableExactly` | bubble/Pods/nanopb/pb_decode.c:919-949 | a message of n required integers is a valid schema, and its check stays in bounds if and only if n is such a count; 32 is not |
| `RequiredFields.TestLeavesExactly` | bubble/Pods/nanopb/pb_decode.c:937-949 | after the decoding loop the test leaves its bounds if and only if the number of required fields is not testable and those of the whole words have all occurred |
| `RequiredFields.EncodedLeavesExactly` | bubble/Pods/nanopb/pb_decode.c:937-949 | every message that the encoder writes, with terminated strings, takes the test out of its bounds if and only if the number of required fields is not testable |
| `RequiredFields.ThirtyTwoFieldsLeave` | bubble/Pods/nanopb/pb_decode.c:946-948 | an input: the encoding of 32 zeros for the schema of 32 required integers fills the first word, and the test shifts by the width of a word |
| `FieldsSeen.OnesExactly` | bubble/Pods/nanopb/pb_decode.c:946-948 | a word equals the mask of n ones exactly if its lowest n bits are set and the others clear |
| `OutStream.OStream.Write` | bubble/Pods/nanopb/pb_encode.c:91-109 | writes the bytes at the position if they fit and fails otherwise; a sizing stream only counts |
| `OutStream.OStream.EncodeVarint` | bubble/Pods/nanopb/pb_encode.c:494-514 | writes exactly the varint of the value, or fails for lack of room |
| `OutStream.VarintBytes` | bubble/Pods/nanopb/pb_encode.c:505-511 | the loop over a ten-byte buffer produces the varint |
| `OutStream.WroteTwice` | bubble/Pods/nanopb/pb_encode.c:91-109 | two writes in a row amount to one write of the concatenation, failures included |
| `StreamEncoder.EncodeFixed` | bubble/Pods/nanopb/pb_encode.c:527-551 | the byte loop writes the number least significant byte first |
| `StreamEncoder.EncodeString` | bubble/Pods/nanopb/pb_encode.c:592-598 | writes length and bytes, or fails for lack of room for both |
| `StreamEncoder.EncodeValueTo` | bubble/Pods/nanopb/pb_encode.c:652-760 | each field encoder writes what the specification says or reports the same errors |
| `StreamEncoder.StringLength` | bubble/Pods/nanopb/pb_encode.c:755-759 | the loop finds the length up to the terminator |
| `StreamEncoder.EncodeSubmessage` | bubble/Pods/nanopb/pb_encode.c:600-648 | sizing pass and writing pass agree at every depth, so the changed-size error is unreachable |
| `StreamEncoder.EncodeArrayTo` | bubble/Pods/nanopb/pb_encode.c:116-201 | packed and unpacked arrays are written as specified; too many items is an error |
| `StreamEncoder.FixedWidth` | bubble/Pods/nanopb/pb_encode.c:136-143 | the length computed for packed fixed-width arrays is the length of their bytes |
| `StreamEncoder.PackedSize` | bubble/Pods/nanopb/pb_encode.c:135-155 | the length announced for a packed array is that of the bytes that follow |
| `StreamEncoder.EncodeFieldTo` | bubble/Pods/nanopb/pb_encode.c:271-349 | required, optional, repeated and oneof fields, with the proto3 test for fields without a has flag |
| `StreamEncoder.EncodeTo` | bubble/Pods/nanopb/pb_encode.c:451-473 | the iterator loop writes the encoding of the whole message and works exactly if it exists and fits |
| `StreamEncoder.GetEncodedSize` | bubble/Pods/nanopb/pb_encode.c:480-489 | returns the exact length of the encoding, or fails exactly when there is none |
| `StreamEncoder.EncodeToBuffer` | bubble/Pods/nanopb/pb_encode.c:451-473 | encoding into a buffer works if and only if the size fits, and then the buffer starts with the encoding |
| `InStream.IStream.DecodeVarint32` | bubble/Pods/nanopb/pb_decode.c:173-207 | the loop decodes as specified and, on failure, has consumed the bytes that the end-of-message test relies on |
| `InStream.IStream.DecodeVarint` | bubble/Pods/nanopb/pb_decode.c:209-229 | the loop decodes as specified |
| `InStream.IStream.ReadBytes` | bubble/Pods/nanopb/pb_decode.c:91-123 | takes n bytes, or nothing if there are fewer |
| `InStream.IStream.ReadByte` | bubble/Pods/nanopb/pb_decode.c:127-143 | takes one byte, or nothing at the end |
| `StreamDecoder.DecodeFixed` | bubble/Pods/nanopb/pb_decode.c:1132-1163 | reads a fixed-width number |
| `StreamDecoder.CastsKeepWhatFits` | bubble/Pods/nanopb/pb_decode.c:1184-1197 | a cast to an integer of one, two, four or eight bytes keeps a number if and only if it fits |
| `StreamDecoder.DecodeSigned` | bubble/Pods/nanopb/pb_decode.c:1165-1200 | casts, store and comparison give the specified number or the specified error |
| `StreamDecoder.DecodeUnsigned` | bubble/Pods/nanopb/pb_decode.c:1202-1224 | the same for unsigned integers |
| `StreamDecoder.DecodeZigZag` | bubble/Pods/nanopb/pb_decode.c:1226-1248 | the same for zigzag integers |
| `StreamEncoder.EncodeSvarint` | bubble/Pods/nanopb/pb_encode.c:516-525 | writes the varint of the ZigZag number |
| `StreamDecoder.DecodeSubmessage` | bubble/Pods/nanopb/pb_decode.c:1334-1356 | decodes on the substream and skips what it leaves |
| `StreamDecoder.DecodeArrayFrom` | bubble/Pods/nanopb/pb_decode.c:374-413 | packed and unpacked input; an array that is full is an error |
| `StreamDecoder.SkipVarint` | bubble/Pods/nanopb/pb_decode.c:231-240 | skips bytes up to the first without a continuation bit |
| `StreamDecoder.MakeSubstream` | bubble/Pods/nanopb/pb_decode.c:322-335 | the substream is exactly the delimited record |
| `StreamDecoder.CloseSubstream` | bubble/Pods/nanopb/pb_decode.c:337-350 | the parent goes on right after the record, whatever the substream left unread |
| `StreamDecoder.SkipField` | bubble/Pods/nanopb/pb_decode.c:277-287 | skips exactly one value of the wire type, as OlderSchema.SkipPassesValue says of what an encoder writes |
| `StreamDecoder.DecodeTagFrom` | bubble/Pods/nanopb/pb_decode.c:251-275 | tag, end of message or error as specified |
| `StreamDecoder.SetToDefaults` | bubble/Pods/nanopb/pb_decode.c:763-846 | the recursive initialisation gives every field its default |
| `StreamDecoder.DecodeValueFrom` | bubble/Pods/nanopb/pb_decode.c:1165-1379 | each field decoder gives the specified value and leaves the specified bytes |
| `StreamDecoder.DecodeSlotFrom` | bubble/Pods/nanopb/pb_decode.c:356-429 | one field is decoded as specified into what it held before |
| `StreamDecoder.DecodePackedFrom` | bubble/Pods/nanopb/pb_decode.c:385-397 | the packed loop stops at the end of the record or when the array is full, which is an error |
| `StreamDecoder.CountRequired` | bubble/Pods/nanopb/pb_decode.c:925-935 | walking to the end of the descriptors from anywhere counts all required fields |
| `StreamDecoder.AllSeenIsAllRequired` | bubble/Pods/nanopb/pb_decode.c:908-949 | the bits of all required indices are set exactly when every required field has occurred |
| `StreamDecoder.DecodeFrom` | bubble/Pods/nanopb/pb_decode.c:852-953 | the decoding loop with its iterator and bit words gives the specified struct, fails exactly when specified, and leaves the specified bytes |
| `StreamDecoder.Decode` | bubble/Pods/nanopb/pb_decode.c:955-967 | the same from a struct reset to defaults |
| `Merging.LoopAppend` | bubble/Pods/nanopb/pb_decode.c:863-917 | a loop that exhausted its input goes on with whatever is appended, as if it had been one input |
| `Merging.MergeLaw` | bubble/Pods/nanopb/pb_decode.c:852-953 | decoding a and then b into a struct equals decoding a + b, if a leaves nothing unread |
| `Merging.UnknownFieldIgnored` | bubble/Pods/nanopb/pb_decode.c:877-906 | a well-formed unknown field between fields changes nothing, not even later errors |
| `Merging.ZeroEndsTheMessage` | bubble/Pods/nanopb/pb_decode.c:266-270 | why the merge law needs its condition: after a zero tag everything is ignored |
| `Merging.SplitRecordsMerge` | bubble/Pods/nanopb/pb_decode.c:1334-1356 | a singular embedded message split over two records holds what one record would have given it |
| `OlderSchema.OlderReadsNewer` | bubble/Pods/nanopb/pb_decode.c:852-953 | an older schema, any fields left out, decodes what a newer one encodes: it reads every byte and makes of it what it would of a message without those fields |
| `OlderSchema.FieldIgnored` | bubble/Pods/nanopb/pb_decode.c:877-906 | what the encoder writes for a field that the schema lacks changes nothing, whatever follows |
| `OlderSchema.SkipPassesValue` | bubble/Pods/nanopb/pb_decode.c:231-287 | skipping by the wire type of a field passes over exactly one encoded value of it, whatever follows |
| `DecodingLaws.DecodedFits` | bubble/Pods/nanopb/pb_decode.c:852-967 | no input makes decoding leave in a field more than its memory holds, at any depth: bytes behind their count, strings with a terminator, arrays up to their size, numbers in their range |
| `DecodingLaws.RequiredExactly` | bubble/Pods/nanopb/pb_decode.c:908-949 | a message is decoded if and only if the loop gets through it and meets the tag of every required field |
| `DecodingLaws.UnmentionedIsAbsent` | bubble/Pods/nanopb/pb_decode.c:763-846 | after decoding, a field whose tag, and those of the other members of its oneof, the loop did not meet is absent: no flag, no items, no member, otherwise its default |
| `DecodingLaws.UntouchedField` | bubble/Pods/nanopb/pb_decode.c:852-917 | decoding into a struct leaves such a field as it was |
| `DecodingLaws.NumberTakenExactly` | bubble/Pods/nanopb/pb_decode.c:1165-1248 | a varint is taken for a number if and only if the field can hold it: unsigned as it stands, signed as two's complement of 64 bits, or of 32 in smaller fields, ZigZag by its numbering |
| `DecodingLaws.FixedLengthExactly` | bubble/Pods/nanopb/pb_decode.c:1358-1379 | a record for bytes of a fixed length is taken if and only if it is empty, giving zeros, or has exactly that length |
| `DecodingLaws.BrokenTagExactly` | bubble/Pods/nanopb/pb_decode.c:251-275 | an input that breaks off within a tag of up to five bytes ends the message there; a longer unfinished tag is refused |
| `RoundTrip.FromVarintOfEncoded` | bubble/Pods/nanopb/pb_decode.c:1165-1200 | a negative number of any width, sign-extended to 64 bits by the encoder, is cut back to itself |
| `RoundTrip.ValueRoundTrip` | bubble/Pods/nanopb/pb_decode.c:1165-1379 | every encoded value of every type decodes to itself, strings up to their terminator |
| `RoundTrip.PackedRoundTrip` | bubble/Pods/nanopb/pb_decode.c:373-402 | a packed array decodes back to its items |
| `RoundTrip.TaggedItems` | bubble/Pods/nanopb/pb_decode.c:403-413 | an unpacked array decodes back item by item |
| `RoundTrip.FieldRoundTrip` | bubble/Pods/nanopb/pb_decode.c:356-429 | the bytes of one field, decoded from the defaults, set that field and no other |
| `RoundTrip.MessageRoundTrip` | bubble/Pods/nanopb/pb_encode.c:451-473 | decoding the encoding reads every byte, sees every required field and rebuilds the struct, at every depth, when strings are terminated |
| `RoundTrip.RebuiltExactly` | bubble/Pods/nanopb/pb_encode.c:271-349 | what decoding rebuilds is the struct if and only if, at every depth, every zero left unwritten for want of a has flag is its field default |
| `RoundTrip.MessageFails` | bubble/Pods/nanopb/pb_decode.c:1299-1332 | an unterminated string anywhere in the struct makes decoding fail |
| `RoundTrip.DecodeOfEncode` | bubble/Pods/nanopb/pb_decode.c:955-967 | for every schema and struct that encodes: decoding succeeds if and only if all strings written have their terminator in the field, and gives the struct back if and only if moreover every unwritten zero is its field default |
| `ImplicitPresence.ImplicitFieldsComeBack` | bubble/Pods/nanopb/pb_encode.c:203-289 | if every field without a has flag has the zero of its type as default, every terminated struct that encodes comes back; stated without the test of the encoder |
| `ImplicitPresence.NumberLeftOutExactly` | bubble/Pods/nanopb/pb_encode.c:247-289 | a number without a has flag contributes no bytes if and only if it is 0 |
| `ImplicitPresence.BytesLeftOutExactly` | bubble/Pods/nanopb/pb_encode.c:203-289 | a string without a has flag if and only if it is empty or begins with a zero byte, bytes if and only if there are none |
| `DecodingLaws.PresenceComesBack` | bubble/Pods/nanopb/pb_decode.c:955-967 | has flags, counts and oneof members come back as they were encoded |
| `RoundTrip.StringRoundTripExactly` | bubble/Pods/nanopb/pb_decode.c:1299-1332 | a string comes back if and only if its terminator lies within the field |
| `RoundTrip.ImplicitZeroExactly` | bubble/Pods/nanopb/pb_encode.c:285-289 | a field without a has flag, of any type and contents, comes back if and only if it is written or its default is what was there |

## Left out

- Cryptography and X.509: record protection is a contract (`Flight.Cipher.Lawful`, `AppData.Lawful`), and `ssl_record_sequence_update` is not part of this model; a counter that fails when it would wrap stands for it.
- The client and server handshake state machines, except `ssl3_choose_cipher`: long case by case code without a property that spans it.
- Session serialization: it rests on DER helpers that are not part of this model.
- DTLS timers and MTU queries: the MTU is a parameter of each flush, and a call that finds the transport empty returns without handling a timeout.
- The receiver of ChangeCipherSpec, application data in DTLS, and TLS 1.3 paths: other record types only pass by in the model.
- Allocation failure and the error queue; error codes collapse to failure.
- nanopb callbacks, extensions and pointer fields: schemas have static allocation; the iterator itself covers extension and pointer descriptors.
- nanopb streams with user callbacks: both streams run over a buffer, so the sixteen-byte chunks of skipping are not modelled.
- Struct memory in nanopb: contents are values (`Schema.Value`), so update in place is a new value, and aliasing of union members is not captured beyond one member displacing the others.
- The byte loop that tests a number for zero in `pb_check_proto3_default_value`: the model compares the number.
- The recursive test of embedded messages in `pb_check_proto3_default_value`: it inspects array and union memory behind counts and flags, and schemas that need it are excluded.
- `pb_encode_delimited` and `pb_decode_delimited`: thin wrappers around the submessage routines.
- Reassembly.HmFragment.Mark: does not cover the range whose marking leaves the bitmap (see above), as its effect is not defined; neither do `MarkBits` and `Accept`.
- Reassembly.HmFragment.MarkBits: as `Mark`.
- Reassembly.HmFragment.Accept: as `Mark`.
- HandshakeReader.Reader.AbsorbFragment: for that range it models a skipped marking, where the code touches the byte behind the bitmap.
- HandshakeReader.Reader.TakeOne: the same, through `AbsorbFragment`.
- FlightWriter.Writer.SealRecord: writes into a sequence of its own, so the refusals for aliased buffers and for an output shorter than a header are absent; `SealNextMessage` never asks for less than it needs.
- StreamDecoder.DecodeFrom: excludes schemas with 64 or more required fields or a positive multiple of 32, at any depth, as the test of the bits may leave its bounds.
- StreamDecoder.Decode: the same.
- StreamDecoder.DecodeSubmessage: the same, for the embedded schema.
- StreamDecoder.DecodeArrayFrom: the same, for the schema of the items.
- StreamDecoder.DecodeValueFrom: the same, for the embedded schema.
- StreamDecoder.DecodeSlotFrom: the same, for the embedded schema.
- StreamEncoder.EncodeFieldTo: excludes an embedded message in an optional field without a has flag, whose test looks at memory the model does not keep.
- StreamEncoder.EncodeSubmessage: the same, inside the embedded message.
- StreamEncoder.GetEncodedSize: the same, at any depth.
- StreamEncoder.EncodeToBuffer: the same, at any depth.
- InStream.IStream.ReadBytes: reads from a buffer; user callbacks and skipping in sixteen-byte pieces are absent.
- AppData.Writer.WritePending: the record type of a retry is not compared, since the model writes application data only.
- StreamEncoder.EncodeTo: excludes such fields too, and assumes that no length reaches 2^64, which C guarantees for data in memory.
- AppData.Writer.WriteAppData: alerts are not modelled; partial-write mode is, but exactly-once writing is stated without it and for non-empty data.
- The Swift sources, CPU detection, string tables, SRTP profiles and file loading: no logic worth a model.
