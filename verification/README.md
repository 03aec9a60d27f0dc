# Verified models of the vendored protocol code

The application vendors BoringSSL (for gRPC) and nanopb. These Dafny files
model the parts of both whose correctness is hardest to see, and prove what
they are for.

Four components are modelled.

- **DTLS handshake transport** (`Wire`, `Reassembly`, `ReplayWindow`,
  `DtlsReceiver*`, `DtlsReplay`, `DtlsSender*`, `DtlsRecords`, `DtlsEndToEnd`,
  `DtlsDelivery`). The receiver is
  a reassembly bit mask inside a ring of seven messages behind a replay window
  of 64 numbers; the sender cuts flights into packets with a cursor that can be
  rewound. `DtlsEndToEnd` joins the two by a network that may lose, duplicate,
  reorder and inject records (sections 4.1.2.6, 4.2.3 and 4.2.6 of RFC 6347).
- **nanopb** (`Pb*`). Varints in both forms, descriptor tables, the encoder
  with its sizing pass, the decoder with its substreams and its table of seen
  fields, the round trip through both, and the reading of newer messages with
  older types.
- **TLS handshake and records** (`Handshake*`, `CipherChoice`, `AeadContext`,
  `AppWrite`, `Session*`). Client and server machines composed over two FIFO
  channels (section 7.3 of RFC 5246), and each against any peer; cipher choice
  with equal-preference groups, nonces and additional data, resumable writes,
  session serialisation.
- **Reference counts** (`RefCount`). The compare-exchange loops refine the
  counter under a lock.

Code that updates state in place is a class or a method over an array, proved
against functions on the abstract state; the lemmas about those functions
carry the theorems. Calls into cryptography, the transport and the
application's callbacks are parameters: an AEAD is a pair of functions with
the round-trip law, a transport a list of answers, a callback a choice. Where
an AEAD has to reject something, the assumption is that this one opening is no
forgery given what has been sealed; `AeadContext.ReplaysAreGenuine` shows that
it can be met.

Where the code does something else than a reader would expect, the model
follows the code and the difference is a theorem:

- A handshake number exactly seven ahead passes the caller's filter and is
  then an internal error (`DtlsReceive.OnePastTheWindowIsAnError`).
- The 32-bit varint decoder is commented to accept only sign-extended values
  beyond 32 bits, and accepts more (`PbVarint.Varint32Outcome` says exactly
  which, `PbVarint.MoreAccepted` names one).
- nanopb encodes submessages and packed arrays of 2^32 bytes or more that its
  decoder then refuses (`PbRoundTrip.MessageRoundTrip` has the exact condition).
- A session with a negative verify result is serialised but cannot be parsed
  (`Session.SessionRoundTrip`).
- A field without a presence flag that is at zero comes back as the default of
  its descriptor, where it has one (`PbPresence.SingularComesBack`).
- A preference group left open at the end of the list is never used
  (`CipherChoice.OpenGroupIsIgnored`).
- With an AEAD whose tag length depends on the plaintext, opening works exactly
  when the receiver works out the length that was sealed
  (`AeadContext.OpenUndoesSeal`, `AeadContext.OpensOnlyIfLengthAgrees`).

`dafny verify dfyconfig.toml` checks everything.

## Model

| member | source | states |
|---|---|---|
| `BitMask.BitOfRange` | appPhoRent/Pods/BoringSSL-GRPC/ssl/d1_both.cc:203-205 | `bit_range(start, end)` is exactly the bits from start up to but not including end |
| `Reassembly.SetBits` | appPhoRent/Pods/BoringSSL-GRPC/ssl/d1_both.cc:218-236 | marking [start, end) in place sets exactly those bits of the mask, and leaves every other bit as it was |
| `Reassembly.HasAllOnes` | appPhoRent/Pods/BoringSSL-GRPC/ssl/d1_both.cc:238-248 | the loop over the bytes computes the completeness test |
| `BitMask.AllOnesIffAllMarked` | appPhoRent/Pods/BoringSSL-GRPC/ssl/d1_both.cc:238-248 | as long as no bit past the message is set, the byte-wise completeness test holds if and only if every byte index of the message is marked |
| `Reassembly.Mark` | appPhoRent/Pods/BoringSSL-GRPC/ssl/d1_both.cc:211-251 | the mask is released only when every byte has been received; otherwise the marked set is the old one and [start, end), no bit past the message is set, and some byte is still missing |
| `Reassembly.HmFragment.constructor` | appPhoRent/Pods/BoringSSL-GRPC/ssl/d1_both.cc:152-199 | a new buffer holds the header of the unfragmented message and no byte of the body; it is complete at once exactly when the body is empty |
| `Reassembly.HmFragment.Receive` | appPhoRent/Pods/BoringSSL-GRPC/ssl/d1_both.cc:391-395 | storing a fragment is the update of the map from received byte indices to bytes, so the set of received bytes is the union of all ranges |
| `Reassembly.HmFragment.WholeMessage` | appPhoRent/Pods/BoringSSL-GRPC/ssl/d1_both.cc:408-424 | once the mask is released, the whole buffer is the serialisation of the message as if it had never been cut |
| `Reassembly.ParseOfHeaderBytes` | appPhoRent/Pods/BoringSSL-GRPC/ssl/d1_both.cc:459-473 | parsing a fragment undoes writing it, whatever follows |
| `ReplayWindow.BitOfShift` | appPhoRent/Pods/BoringSSL-GRPC/ssl/dtls_record.cc:160-166 | shifting the 64-bit map moves each bit i to i + shift and drops what passes 63 |
| `ReplayWindow.SlideDescribes` | appPhoRent/Pods/BoringSSL-GRPC/ssl/dtls_record.cc:158-168 | after a new maximum, bit i stands again for the number that lies i behind the maximum |
| `ReplayWindow.SetDescribes` | appPhoRent/Pods/BoringSSL-GRPC/ssl/dtls_record.cc:170-174 | setting one bit adds exactly that number to what the map describes; a number too old to have a bit changes nothing |
| `ReplayWindow.Bitmap.ShouldDiscard` | appPhoRent/Pods/BoringSSL-GRPC/ssl/dtls_record.cc:140-150 | a number is discarded if and only if it was recorded in this epoch or lies 64 or more behind the maximum |
| `ReplayWindow.Bitmap.Record` | appPhoRent/Pods/BoringSSL-GRPC/ssl/dtls_record.cc:155-175 | bit i of the map is set exactly when the number i behind the maximum has been recorded, before and after each record |
| `ReplayWindow.Bitmap.Reset` | appPhoRent/Pods/BoringSSL-GRPC/ssl/dtls_method.cc:81-95 | an epoch change leaves a window that describes the empty set |
| `DtlsReplay.WindowMovesOnAccept` | appPhoRent/Pods/BoringSSL-GRPC/ssl/dtls_record.cc:177-272 | the exact condition under which a record is accepted; a record that fails it (bad version, other epoch, replay, fails to open, too long) leaves the receiver as it was, an accepted one adds its number and nothing else to the window |
| `DtlsReplay.NeverAcceptedTwice` | appPhoRent/Pods/BoringSSL-GRPC/ssl/dtls_record.cc:225-259 | in every run, over any input and any number of epoch changes, no epoch and number is accepted twice, and a number is refused as a replay exactly when it was accepted in this epoch or lies 64 or more behind the largest |
| `DtlsReceive.SlotHoldsTheMessage` | appPhoRent/Pods/BoringSSL-GRPC/ssl/d1_both.cc:265-295 | an occupied slot of the ring holds the message whose number selects it, so the assertion that the numbers are equal cannot fail |
| `DtlsReceive.FragmentKeepsRing` | appPhoRent/Pods/BoringSSL-GRPC/ssl/d1_both.cc:378-397 | the ring invariant (slot i holds a number congruent to i modulo 7 within the window of 7) is kept by any fragment; in epoch 1 only the slot of the current message can change |
| `DtlsReceive.FragmentsKeepRing` | appPhoRent/Pods/BoringSSL-GRPC/ssl/d1_both.cc:345-405 | the ring invariant is kept by any number of fragments in one record, and nothing but the ring changes |
| `DtlsReceive.OpenKeepsRing` | appPhoRent/Pods/BoringSSL-GRPC/ssl/d1_both.cc:297-406 | the ring invariant is kept by receiving any bytes at all |
| `DtlsReceive.OpenKeepsLengths` | appPhoRent/Pods/BoringSSL-GRPC/ssl/d1_both.cc:359-370 | whatever is received, no slot ever holds a message longer than is allowed |
| `DtlsReceive.FragmentKeepsLengths` | appPhoRent/Pods/BoringSSL-GRPC/ssl/d1_both.cc:359-370 | a fragment of too long a message is an error and changes nothing |
| `DtlsReceive.NextMessageKeepsRing` | appPhoRent/Pods/BoringSSL-GRPC/ssl/d1_both.cc:426-438 | the ring invariant is kept by handing on a message, also where the 16-bit handshake_read_seq wraps around |
| `DtlsReceive.OnePastTheWindowIsAnError` | appPhoRent/Pods/BoringSSL-GRPC/ssl/d1_both.cc:265-295 | a number exactly 7 ahead passes the filter of the caller and is rejected as an internal error, and it is the only number that is; numbers further ahead are ignored |
| `DtlsReceiverState.Dtls1State.OpenRecord` | appPhoRent/Pods/BoringSSL-GRPC/ssl/dtls_record.cc:177-272 | the method on the window in place does what the specification function says: new state, result and bytes consumed |
| `DtlsReceiverState.Dtls1State.GetIncomingMessage` | appPhoRent/Pods/BoringSSL-GRPC/ssl/d1_both.cc:265-295 | finds or makes the slot of the message, in place, as the specification says, with its two errors |
| `DtlsReceiverState.Dtls1State.ReceiveFragment` | appPhoRent/Pods/BoringSSL-GRPC/ssl/d1_both.cc:345-402 | one turn of the loop, in place, with its checks in their order |
| `DtlsReceiverState.Dtls1State.OpenHandshake` | appPhoRent/Pods/BoringSSL-GRPC/ssl/d1_both.cc:297-406 | the loop over the fragments of a record, in place, is the specification over the abstract ring |
| `DtlsReceiverState.Dtls1State.GetMessage` | appPhoRent/Pods/BoringSSL-GRPC/ssl/d1_both.cc:408-424 | a message is returned exactly when the current slot has every byte, and it is the unfragmented serialisation |
| `DtlsReceiverState.Dtls1State.NextMessage` | appPhoRent/Pods/BoringSSL-GRPC/ssl/d1_both.cc:426-438 | frees the current slot and advances the number modulo 2^16 |
| `DtlsReceiverState.Dtls1State.HasUnprocessedHandshakeData` | appPhoRent/Pods/BoringSSL-GRPC/ssl/d1_both.cc:440-457 | true exactly when some slot other than that of the message being processed is occupied or a ChangeCipherSpec is pending |
| `DtlsReceiverState.Dtls1State.SetReadState` | appPhoRent/Pods/BoringSSL-GRPC/ssl/dtls_method.cc:81-95 | succeeds exactly when nothing is left unprocessed; then the epoch advances and the window is empty, otherwise nothing changes |
| `DtlsSent.NumbersAreUnique` | appPhoRent/Pods/BoringSSL-GRPC/ssl/dtls_record.cc:294-351 | in every log the sender can build no two sealed records share an epoch and a number |
| `DtlsSent.EmittedNumbersAreUnique` | appPhoRent/Pods/BoringSSL-GRPC/ssl/dtls_record.cc:294-351 | of all records ever given to the transport no two share an epoch and a number, and within an epoch the numbers increase |
| `DtlsSent.EmittedMore` | appPhoRent/Pods/BoringSSL-GRPC/ssl/d1_both.cc:784-827 | packets that go on with what was sealed keep what was emitted a subsequence of what was sealed |
| `DtlsQueue.SealKeepsNumbers` | appPhoRent/Pods/BoringSSL-GRPC/ssl/dtls_record.cc:316-344 | sealing in the current or the previous epoch uses a number above all those used in that epoch |
| `DtlsQueue.NextEpochKeepsNumbers` | appPhoRent/Pods/BoringSSL-GRPC/ssl/dtls_method.cc:97-107 | changing the write epoch keeps the old counter for retransmission and starts the new one with nothing sealed under it |
| `DtlsQueue.QueueKeepsValid` | appPhoRent/Pods/BoringSSL-GRPC/ssl/d1_both.cc:555-598 | queueing a message keeps the sender invariant: flight, history, numbers and transcript agree |
| `DtlsQueue.QueueCcsKeepsValid` | appPhoRent/Pods/BoringSSL-GRPC/ssl/d1_both.cc:600-602 | queueing a ChangeCipherSpec keeps the sender invariant |
| `DtlsQueue.NextEpochKeepsValid` | appPhoRent/Pods/BoringSSL-GRPC/ssl/dtls_method.cc:97-107 | changing the write epoch keeps the sender invariant, record numbers included |
| `DtlsQueue.AppendTranscript` | appPhoRent/Pods/BoringSSL-GRPC/ssl/d1_both.cc:565-574 | the transcript grows by exactly the unfragmented message |
| `DtlsQueue.SealKeepsValid` | appPhoRent/Pods/BoringSSL-GRPC/ssl/d1_both.cc:644-734 | sealing the next record of the flight keeps the sender invariant and only extends the log |
| `DtlsQueue.RewindKeepsValid` | appPhoRent/Pods/BoringSSL-GRPC/ssl/d1_both.cc:812-823 | the cursor may go back to any earlier position of the flight |
| `DtlsFlight.FragmentsPartition` | appPhoRent/Pods/BoringSSL-GRPC/ssl/d1_both.cc:675-733 | the fragments sent for a message from any position on, each noted under the number of that message, are, in order, exactly the rest of its body; none is empty unless the body is, and then there is one |
| `DtlsFlight.CarriesMovesOn` | appPhoRent/Pods/BoringSSL-GRPC/ssl/d1_both.cc:784-827 | records only move the cursor forward, and a run with no record leaves it where it was |
| `DtlsFlight.CarriesAppend` | appPhoRent/Pods/BoringSSL-GRPC/ssl/d1_both.cc:739-780 | what two consecutive runs of records carry is what they carry together |
| `DtlsSenderState.Dtls1State.SerializeMessage` | appPhoRent/Pods/BoringSSL-GRPC/ssl/d1_both.cc:511-537 | the message is the header, with both length fields and offset zero, then the body; it fails exactly for bodies of 2^24 bytes or more |
| `DtlsSenderState.Dtls1State.AddMessage` | appPhoRent/Pods/BoringSSL-GRPC/ssl/d1_both.cc:555-598 | a new flight is opened after a completed one; the message is queued exactly when there is room for it |
| `DtlsSenderState.Dtls1State.AddChangeCipherSpec` | appPhoRent/Pods/BoringSSL-GRPC/ssl/d1_both.cc:555-602 | a ChangeCipherSpec is queued exactly when the flight has room; it takes no message number and is not hashed |
| `DtlsSenderState.Dtls1State.SetWriteState` | appPhoRent/Pods/BoringSSL-GRPC/ssl/dtls_method.cc:97-107 | moves counter and cipher of the current epoch to the last one, and starts the next; where the 16-bit epoch wraps around it says so |
| `DtlsSenderState.Dtls1State.SealRecord` | appPhoRent/Pods/BoringSSL-GRPC/ssl/dtls_record.cc:294-351 | seals under the next number of its epoch and advances that counter only; the record takes prefix, plaintext and tag under the cipher of that epoch; the last number is never emitted; it fails only on a wrapped counter, too little room or too long a record |
| `DtlsSenderState.Dtls1State.SealNextMessage` | appPhoRent/Pods/BoringSSL-GRPC/ssl/d1_both.cc:644-734 | seals exactly the next piece of the current message, taking no more than the room given, and all of it unless that is the rest of the message; no progress only when not even one byte fits |
| `DtlsSenderState.Dtls1State.AssembleFragment` | appPhoRent/Pods/BoringSSL-GRPC/ssl/d1_both.cc:679-716 | the fragment is exactly the bytes of the queued message from the cursor on; one that is not the rest of its message leaves no room for another byte beside header and overhead; there is none exactly when not one byte fits |
| `DtlsSenderState.Dtls1State.SealCcs` | appPhoRent/Pods/BoringSSL-GRPC/ssl/d1_both.cc:661-677 | a ChangeCipherSpec is sealed whole or not at all |
| `DtlsSenderState.Dtls1State.SealNextPacket` | appPhoRent/Pods/BoringSSL-GRPC/ssl/d1_both.cc:739-780 | a packet is not empty, takes no more than the MTU, holds exactly the records sealed for it, in order, and carries the flight on from the cursor; it is full: nothing of the flight is left, or its last fragment takes all the room, or not a byte of the next message fits; it fails without progress exactly in the state it started in |
| `DtlsSenderState.Dtls1State.SendFlight` | appPhoRent/Pods/BoringSSL-GRPC/ssl/d1_both.cc:782-827 | terminates (messages left, then bytes left); every packet takes no more than the MTU and none could have held the first byte of the next; what the transport took are the records sealed first, in order, and runs exactly from the old cursor to the new one also after a failed write; all that was ever emitted stays a subsequence of what was sealed; on success the cursor is at the end; and each failure has its cause |
| `DtlsSenderState.PackedGrows` | appPhoRent/Pods/BoringSSL-GRPC/ssl/d1_both.cc:739-827 | a packet that goes on where a full one ended starts with a piece that had no room there |
| `DtlsSenderState.Dtls1State.FlushFlight` | appPhoRent/Pods/BoringSSL-GRPC/ssl/d1_both.cc:829-834 | completes the flight and sends the rest of it, in full packets within the MTU, each failure with its cause |
| `DtlsSenderState.Dtls1State.Retransmit` | appPhoRent/Pods/BoringSSL-GRPC/ssl/d1_both.cc:836-845 | sends the whole flight again from its start, in full packets within the MTU, losing and skipping nothing, as far as the transport takes it |
| `DtlsSenderState.Dtls1State.UpdateMtu` | appPhoRent/Pods/BoringSSL-GRPC/ssl/d1_both.cc:615-632 | an MTU below the minimum is replaced by the queried one if that is in range, else by the default |
| `DtlsEndToEnd.OldMessagesAreReplays` | appPhoRent/Pods/BoringSSL-GRPC/ssl/d1_both.cc:380-385 | a record of a message 449 or more behind what was handed on has fallen out of the replay window, so one from a whole number space ago, whose number looks current again, is never accepted |
| `DtlsEndToEnd.NumberIdentifiesMessage` | appPhoRent/Pods/BoringSSL-GRPC/ssl/d1_both.cc:378-397 | a fresh record whose 16-bit number lies in the window is of the message the window expects there |
| `DtlsEndToEnd.StepKeepsInv` | appPhoRent/Pods/BoringSSL-GRPC/ssl/d1_both.cc:297-438 | every step of sender, network and receiver keeps: each slot holds bytes of one sent message, at its place in the sequence |
| `DtlsEndToEnd.RunKeepsInv` | appPhoRent/Pods/BoringSSL-GRPC/ssl/d1_both.cc:297-438 | every run of sender, network and receiver keeps it: each slot holds bytes of one sent message, at its place in the sequence |
| `DtlsEndToEnd.DeliveredIsWhatWasSaid` | appPhoRent/Pods/BoringSSL-GRPC/ssl/d1_both.cc:350-438 | at every point of every run, over a network that loses, duplicates, reorders and injects, the messages handed on are the first messages of the sender in order and byte for byte, both transcripts agree, and the next complete message continues them |
| `DtlsEndToEnd.FreshFragmentIsStored` | appPhoRent/Pods/BoringSSL-GRPC/ssl/d1_both.cc:378-397 | a fresh fragment in the window is never an error: its bytes are there afterwards, and none is lost |
| `DtlsDelivery.AcceptedIsComplete` | appPhoRent/Pods/BoringSSL-GRPC/ssl/d1_both.cc:297-424 | in any run, once every byte of an expected message has been accepted in some record, in whatever order, pieces and company, and however often, the message is complete and is what the sender said |
| `DtlsDelivery.RunKeeps` | appPhoRent/Pods/BoringSSL-GRPC/ssl/d1_both.cc:378-438 | bytes once received of an expected message stay, whatever else arrives, is taken or changes |
| `DtlsDelivery.FlightHasAll` | appPhoRent/Pods/BoringSSL-GRPC/ssl/d1_both.cc:679-733 | every byte of every message of a flight that was written whole is in one of its records |
| `DtlsDelivery.WholeFlightIsDelivered` | appPhoRent/Pods/BoringSSL-GRPC/ssl/d1_both.cc:782-845 | when the records of a flight that was written whole are accepted while a message of it is expected, that message is complete at the end and as it was said |
| `DtlsEndToEnd.BeyondTheNumberSpace` | appPhoRent/Pods/BoringSSL-GRPC/ssl/d1_both.cc:265-295 | the bound on how far the sender is ahead is needed: there is a run from the start, 2^16 and one messages ahead and else like any other, in which message 65536 is handed on as message 0 |
| `PbVarint.VarintRoundTrip` | appPhoRent/Pods/nanopb/pb_encode.c:574-594 | decoding undoes encoding for every 64-bit value, and leaves what follows |
| `PbVarint.VarintAtMostTenBytes` | appPhoRent/Pods/nanopb/pb_encode.c:574-594 | an encoded 64-bit value has at most ten bytes |
| `PbVarint.VarintFormsAgree` | appPhoRent/Pods/nanopb/pb_decode.c:182-270 | on every input both decoders accept they take the same bytes, and the 32-bit one gives the value modulo 2^32 (an encoding the 64-bit decoder accepts has at most ten bytes) |
| `PbVarint.Varint32Outcome` | appPhoRent/Pods/nanopb/pb_decode.c:182-242 | exactly which encoded 64-bit values the 32-bit decoder accepts, and as what |
| `PbVarint.NegativesAccepted` | appPhoRent/Pods/nanopb/pb_decode.c:182-242 | every sign-extended negative 32-bit value is accepted |
| `PbVarint.MoreAccepted` | appPhoRent/Pods/nanopb/pb_decode.c:216-226 | the comment speaks of sign-extended values only, but a value that is not one is accepted too, and cut down |
| `PbVarint.ZigZagIsABijection` | appPhoRent/Pods/nanopb/pb_decode.c:1240-1252 | zigzag coding is a bijection between the signed and the unsigned 64-bit integers, both ways |
| `PbVarint.FixedRoundTrip` | appPhoRent/Pods/nanopb/pb_encode.c:607-632 | the little-endian fixed-width bytes of a value give it back |
| `PbDecode.PassLeavesRest` | appPhoRent/Pods/nanopb/pb_decode.c:919-997 | each pass of the decoding loop leaves a proper suffix of what it was given |
| `PbDecode.PassIsLocal` | appPhoRent/Pods/nanopb/pb_decode.c:919-997 | a pass depends only on the bytes it takes, not on what follows them |
| `PbDecode.RequiredFieldsWereSeen` | appPhoRent/Pods/nanopb/pb_decode.c:988-1049 | decoding succeeds if and only if every pass does, the last fixed-count array is complete, and each of the first 64 required fields occurs in the input at this level |
| `PbDecode.UnknownFieldIgnored` | appPhoRent/Pods/nanopb/pb_decode.c:316-326 | a well-formed field with an undeclared tag, put between any two fields, changes neither the result nor the message |
| `PbNewer.VarintIsSkipped` | appPhoRent/Pods/nanopb/pb_decode.c:271-282 | the end of any encoded varint is found without decoding it |
| `PbNewer.ValueIsSkipped` | appPhoRent/Pods/nanopb/pb_decode.c:316-326 | for every field and value, the wire type alone suffices to skip exactly what the encoder wrote for the value, if and only if its length is below 2^32 |
| `PbNewer.UndeclaredField` | appPhoRent/Pods/nanopb/pb_decode.c:937-960 | whatever the encoder writes for a field (one value, packed, or items under their own keys) is skipped by a decoder whose type does not declare its tag, and leaves the message as it is |
| `PbNewer.EncodedFieldIsIgnored` | appPhoRent/Pods/nanopb/pb_decode.c:937-960 | an encoded field under an undeclared tag, put between any two fields, changes neither the result nor the message |
| `PbNewer.OlderReadsNewer` | appPhoRent/Pods/nanopb/pb_decode.c:904-1049 | a message of a newer type, with fields anywhere that the older type does not declare, is decoded with the older type as the same message without those fields |
| `PbDecode.FindFinds` | appPhoRent/Pods/nanopb/pb_common.c:78-95 | in a table with distinct tags, searching for a tag finds its field |
| `PbRoundTrip.ChunkRoundTrip` | appPhoRent/Pods/nanopb/pb_decode.c:367-395 | a length-delimited chunk is read back exactly when it is shorter than 2^32 bytes |
| `PbRoundTrip.ValueRoundTrip` | appPhoRent/Pods/nanopb/pb_decode.c:1289-1508 | each kind of value, at any depth, is read back in its normal form, and nothing after it is touched |
| `PbRoundTrip.ItemsRoundTrip` | appPhoRent/Pods/nanopb/pb_decode.c:449-460 | the items of an unpacked array are read back one by one, each appended in its normal form, if and only if each is shorter than 2^32 bytes |
| `PbRoundTrip.PackedRoundTrip` | appPhoRent/Pods/nanopb/pb_decode.c:421-448 | the items of a packed array are read back from one substream, all of them and in order |
| `PbRoundTrip.MessageRoundTrip` | appPhoRent/Pods/nanopb/pb_decode.c:1051-1063 | for every table with distinct tags (nested messages, repeated, packed, fixed-count, oneof) and every well-formed message, decoding what was encoded gives the message back up to defaults in absent fields and consumes everything, if and only if every submessage and packed array is shorter than 2^32 bytes; otherwise it fails |
| `PbRoundTrip.NarrowIsExact` | appPhoRent/Pods/nanopb/pb_decode.c:1289-1373 | a varint is taken for a number exactly when it says one (itself, through the zigzag code, or modulo the width it is cast to) that the field can hold; anything else is an error |
| `PbRoundTrip.GapBetweenArraysFails` | appPhoRent/Pods/nanopb/pb_decode.c:965-986 | a fixed-count array that is left before it is full makes the next one fail |
| `PbPresence.LeftOutIffNothing` | appPhoRent/Pods/nanopb/pb_encode.c:215-303 | a field without a presence flag is left out if and only if there is nothing in it: the number 0, no bytes before the terminator, or a submessage that encodes to nothing and selects no union member |
| `PbPresence.SingularComesBack` | appPhoRent/Pods/nanopb/pb_encode.c:321-324 | the only value of such a field that does not come back is one that is left out although the descriptor has another default |
| `PbPresence.SingularRoundTrip` | appPhoRent/Pods/nanopb/pb_encode.c:307-392 | in any type, a field without a flag and without a descriptor default comes back with its own value |
| `PbPresence.SaidComesBack` | appPhoRent/Pods/nanopb/pb_decode.c:1051-1063 | for types without defaults, every message shorter than 2^32 bytes is decoded as it was said, by a definition that does not know the presence test: nothing is lost by being left out |
| `PbRoundTrip.MessageEncodes` | appPhoRent/Pods/nanopb/pb_encode.c:494-516 | a well-formed message of a well-formed type can always be encoded |
| `PbFieldIter.FieldIter.Next` | appPhoRent/Pods/nanopb/pb_common.c:20-76 | advances to the next field, or back to the first and says so, with the required-field index in step |
| `PbFieldIter.FieldIter.constructor` | appPhoRent/Pods/nanopb/pb_common.c:8-18 | starts at the first field |
| `PbFieldIter.FieldIter.Find` | appPhoRent/Pods/nanopb/pb_common.c:78-95 | from wherever the iterator stands, finds the tag if and only if some field has it, and otherwise stays |
| `PbEncoder.OStream.Write` | appPhoRent/Pods/nanopb/pb_encode.c:72-119 | writes exactly when the bytes fit, in place and nowhere else; a sizing stream only counts |
| `PbEncoder.OStream.EncodeVarint` | appPhoRent/Pods/nanopb/pb_encode.c:574-594 | the loop writes the bytes of the specification |
| `PbEncoder.OStream.BufWrite` | appPhoRent/Pods/nanopb/pb_encode.c:72-82 | copies the bytes to the write position and moves it; everything else stays |
| `PbEncoder.OStream.EncodeSvarint` | appPhoRent/Pods/nanopb/pb_encode.c:596-605 | writes the varint of the zigzag code |
| `PbEncoder.OStream.EncodeFixed` | appPhoRent/Pods/nanopb/pb_encode.c:607-632 | writes the little-endian bytes |
| `PbEncoder.OStream.EncodeTag` | appPhoRent/Pods/nanopb/pb_encode.c:635-639 | writes the key of tag and wire type |
| `PbEncoder.OStream.EncodeString` | appPhoRent/Pods/nanopb/pb_encode.c:674-680 | writes the length and the bytes, also on a sizing stream |
| `PbEncoder.OStream.EncNumber` | appPhoRent/Pods/nanopb/pb_encode.c:734-808 | writes a number in the form its descriptor asks for, or fails where the size is none of 1, 2, 4 and 8 |
| `PbEncoder.OStream.EncString` | appPhoRent/Pods/nanopb/pb_encode.c:831-855 | writes the characters before the terminator |
| `PbEncoder.OStream.EncData` | appPhoRent/Pods/nanopb/pb_encode.c:810-868 | writes bytes, strings and fixed-length bytes, or fails where they exceed their field |
| `PbEncoder.OStream.EncodeTagged` | appPhoRent/Pods/nanopb/pb_encode.c:641-672 | writes the key of the field, then the value |
| `PbEncoder.OStream.EncodePackedArray` | appPhoRent/Pods/nanopb/pb_encode.c:139-181 | the size of a packed array, computed or counted, is what the writing pass writes |
| `PbEncoder.OStream.EncodeArray` | appPhoRent/Pods/nanopb/pb_encode.c:126-211 | both passes over an array, packed or not, write the bytes of the specification, or fail exactly when there are none or they do not fit |
| `PbEncoder.OStream.EncodeField` | appPhoRent/Pods/nanopb/pb_encode.c:307-392 | one field is written, or left out, as its presence test says; it fails exactly when the specification has no bytes or they do not fit |
| `PbEncoder.OStream.EncodeSubmessage` | appPhoRent/Pods/nanopb/pb_encode.c:682-730 | size first, then write: the two passes agree, so the error for a size that changed cannot occur |
| `PbEncoder.OStream.Encode` | appPhoRent/Pods/nanopb/pb_encode.c:494-516 | for messages of any depth: succeeds exactly when the message has an encoding and it fits, and then the buffer holds it at the write position and is unchanged elsewhere; a failed encoding stays within the space of the stream |
| `PbEncoder.OStream.GetEncodedSize` | appPhoRent/Pods/nanopb/pb_encode.c:533-542 | the size is the length of the encoding, and it fails exactly when there is none |
| `PbEncoder.SizingEqualsWriting` | appPhoRent/Pods/nanopb/pb_encode.c:101-119 | for the same message, a real stream succeeds if and only if a sizing one does and the counted size fits in what is left, and both count the same |
| `PbFieldsSeen.MarkHolds` | appPhoRent/Pods/nanopb/pb_decode.c:988-993 | setting a bit of the two seen words adds exactly that field to the set |
| `PbFieldsSeen.AllSeen` | appPhoRent/Pods/nanopb/pb_decode.c:1021-1045 | the word-wise check at the end is: every required field was seen |
| `PbDecoder.IStream.Read` | appPhoRent/Pods/nanopb/pb_decode.c:85-132 | takes the bytes exactly when there are enough; otherwise nothing is taken |
| `PbDecoder.IStream.ReadByte` | appPhoRent/Pods/nanopb/pb_decode.c:136-152 | takes one byte; at the end it fails |
| `PbDecoder.IStream.SkipVarint` | appPhoRent/Pods/nanopb/pb_decode.c:273-282 | skips to behind the first byte without continuation bit |
| `PbDecoder.IStream.DecodeVarint32Eof` | appPhoRent/Pods/nanopb/pb_decode.c:182-242 | the loop with its 8-bit position refines the recursive specification; end of file exactly at the end of the stream |
| `PbDecoder.IStream.DecodeVarint` | appPhoRent/Pods/nanopb/pb_decode.c:250-270 | the 64-bit loop refines the specification |
| `PbDecoder.IStream.MakeSubstream` | appPhoRent/Pods/nanopb/pb_decode.c:367-380 | a substream over exactly the bytes of the chunk |
| `PbDecoder.IStream.CloseSubstream` | appPhoRent/Pods/nanopb/pb_decode.c:382-395 | after closing, the stream goes on behind the chunk |
| `PbDecoder.IStream.SkipField` | appPhoRent/Pods/nanopb/pb_decode.c:316-326 | skips what the specification skips |
| `PbDecoder.IStream.DecodeTag` | appPhoRent/Pods/nanopb/pb_decode.c:293-314 | tag and wire type, with the zero tag as the end of the message |
| `PbDecoder.IStream.DecNumber` | appPhoRent/Pods/nanopb/pb_decode.c:1289-1389 | the number decoders, with the casts that must not change the value |
| `PbDecoder.IStream.Cast` | appPhoRent/Pods/nanopb/pb_decode.c:1289-1372 | a value is stored exactly when the field can hold it |
| `PbDecoder.IStream.DecData` | appPhoRent/Pods/nanopb/pb_decode.c:1391-1461 | bytes, strings and fixed-length bytes are taken exactly as the specification says, with a string never longer than its field and terminator allow |
| `PbDecoder.IStream.DecSubmessage` | appPhoRent/Pods/nanopb/pb_decode.c:1463-1485 | a submessage is decoded within a substream of exactly its length, from the value already there or from defaults, and the stream goes on behind it |
| `PbDecoder.IStream.DecodeStaticField` | appPhoRent/Pods/nanopb/pb_decode.c:401-475 | one field in place, by its repetition rule |
| `PbDecoder.IStream.DecodePackedArray` | appPhoRent/Pods/nanopb/pb_decode.c:421-448 | the loop over the substream, with its check for overflow, is the specification of a packed array |
| `PbDecoder.IStream.DecodeKnownField` | appPhoRent/Pods/nanopb/pb_decode.c:964-996 | the field the iterator found: fixed-count bookkeeping, seen bit, value |
| `PbDecoder.IStream.CheckEnd` | appPhoRent/Pods/nanopb/pb_decode.c:999-1046 | the checks after the loop: the last fixed-count array and the required fields |
| `PbDecoder.IStream.ReadFields` | appPhoRent/Pods/nanopb/pb_decode.c:901-997 | the loop of the decoder refines the recursive specification, and terminates as each pass takes a byte |
| `PbDecoder.IStream.RequiredCount` | appPhoRent/Pods/nanopb/pb_decode.c:1006-1025 | counts the required fields from any position of the iterator |
| `PbDecoder.IStream.DecodeNoinit` | appPhoRent/Pods/nanopb/pb_decode.c:901-1049 | the decoder on the stream in place succeeds, stores and consumes exactly as the specification function says |
| `PbDecoder.IStream.Decode` | appPhoRent/Pods/nanopb/pb_decode.c:1051-1063 | the decoder, starting from defaults, succeeds, stores and consumes exactly as the specification function says |
| `PbDecoder.SetToDefaults` | appPhoRent/Pods/nanopb/pb_decode.c:812-895 | the loop over the iterator gives the default message |
| `PbDecoder.FieldDefault` | appPhoRent/Pods/nanopb/pb_decode.c:812-882 | the default of one field, by its repetition rule |
| `RefCount.Counter.Inc` | appPhoRent/Pods/BoringSSL-GRPC/crypto/refcount_lock.c:29-35 | up by one, and never past the saturated count |
| `RefCount.Counter.DecAndTestZero` | appPhoRent/Pods/BoringSSL-GRPC/crypto/refcount_lock.c:37-51 | aborts exactly on zero; otherwise saturated counts stay, others go down by one, and the result says whether zero was reached |
| `RefCount.SaturatedForever` | appPhoRent/Pods/BoringSSL-GRPC/crypto/refcount_c11.c:37-65 | in every interleaving a saturated count never changes |
| `RefCount.StepRefinesLocked` | appPhoRent/Pods/BoringSSL-GRPC/crypto/refcount_c11.c:37-65 | each step of the compare-exchange loops is a step of the locked version, or none |
| `RefCount.StepKeepsEvents` | appPhoRent/Pods/BoringSSL-GRPC/crypto/refcount_c11.c:37-65 | each step shows callers just the call or the returned value that its locked steps show |
| `RefCount.RunRefinesLocked` | appPhoRent/Pods/BoringSSL-GRPC/crypto/refcount_c11.c:37-65 | every interleaving of any number of threads, with spurious failures of the exchange, is a run of the locked version made of the matching steps: it leads to the same count, and callers see the same calls and the same returned values in the same order, up to a decrement that sees zero |
| `RefCount.CrashIsFinal` | appPhoRent/Pods/BoringSSL-GRPC/crypto/refcount_c11.c:53-55 | a thread whose decrement saw zero can only abort |
| `RefCount.CountIsBalance` | appPhoRent/Pods/BoringSSL-GRPC/crypto/refcount_c11.c:37-65 | in runs that never saturate the count is what it was, plus increments, less decrements |
| `RefCount.FinalDecrementFrees` | appPhoRent/Pods/BoringSSL-GRPC/crypto/refcount_c11.c:49-65 | among callers that increment only while holding a reference no decrement aborts, at most one returns 1, and exactly when the count has come to zero; afterwards nothing is counted any more |
| `RefCount.AllGivenUp` | appPhoRent/Pods/BoringSSL-GRPC/crypto/refcount_c11.c:49-65 | when every reference was given up, exactly one decrement has returned 1 |
| `CipherChoice.ChooseFrom` | appPhoRent/Pods/BoringSSL-GRPC/ssl/handshake_server.cc:383-421 | the scan returns a cipher of the first group of the priority list that offers one, namely the compatible one earliest in the allow list, and none exactly when no group offers any |
| `CipherChoice.ChooseCipher` | appPhoRent/Pods/BoringSSL-GRPC/ssl/handshake_server.cc:357-424 | with the own groups well formed, none is returned exactly when no compatible cipher is in both lists |
| `CipherChoice.ChoiceIsUnique` | appPhoRent/Pods/BoringSSL-GRPC/ssl/handshake_server.cc:383-421 | the specification leaves no choice |
| `CipherChoice.ChosenIsShared` | appPhoRent/Pods/BoringSSL-GRPC/ssl/handshake_server.cc:390-401 | what is chosen is in both lists, fits the version, and shares key exchange and authentication with the connection |
| `CipherChoice.SharedIsOffered` | appPhoRent/Pods/BoringSSL-GRPC/ssl/handshake_server.cc:390-421 | with closed groups no cipher that is so is missed |
| `CipherChoice.ClosedGroupsMissNothing` | appPhoRent/Pods/BoringSSL-GRPC/ssl/internal.h:1860-1893 | with every group closed, some group offers a cipher if and only if some compatible cipher is shared |
| `CipherChoice.OpenGroupIsIgnored` | appPhoRent/Pods/BoringSSL-GRPC/ssl/internal.h:1860-1893 | a group left open at the end of the list is scanned in vain: closedness is needed |
| `AeadContext.Create` | appPhoRent/Pods/BoringSSL-GRPC/ssl/ssl_aead_ctx.cc:57-149 | which flags and lengths each cipher and version gives, when it fails, and that every context made is well formed |
| `AeadContext.AssembleNonce` | appPhoRent/Pods/BoringSSL-GRPC/ssl/ssl_aead_ctx.cc:325-369 | the nonce put together in place, by copying and XOR, is the specified one |
| `AeadContext.NonceIsInjective` | appPhoRent/Pods/BoringSSL-GRPC/ssl/ssl_aead_ctx.cc:325-369 | two different variable parts never give the same nonce |
| `AeadContext.NonceLayout` | appPhoRent/Pods/BoringSSL-GRPC/ssl/ssl_aead_ctx.cc:325-369 | the nonce is the fixed part, then the variable part (section 3 of RFC 5288), or bit by bit the exclusive or of the fixed part and the padded variable part (section 2 of RFC 7905) |
| `DtlsRecords.NoncesAreNeverReused` | appPhoRent/Pods/BoringSSL-GRPC/ssl/dtls_record.cc:294-351 | over all records ever given to the transport, in any number of epochs and retransmissions, no two are sealed under one context with one nonce; that there is one context for an epoch is part of the sender invariant |
| `DtlsRecords.EpochIsNonceRespecting` | appPhoRent/Pods/BoringSSL-GRPC/ssl/ssl_aead_ctx.cc:325-369 | the emitted records of an epoch use each nonce once, as the AEAD asks |
| `DtlsRecords.RecordParses` | appPhoRent/Pods/BoringSSL-GRPC/ssl/dtls_record.cc:294-351 | the bytes of a sealed record, as many as were counted for it, are taken apart by the receiver into the same type, epoch, number and body, whatever follows in the packet |
| `DtlsRecords.HonestRecordIsOpened` | appPhoRent/Pods/BoringSSL-GRPC/ssl/dtls_record.cc:177-272 | a sealed record that arrives unharmed under the cipher and epoch of the receiver, and is no replay, is accepted with the plaintext that was sealed, and exactly its bytes are consumed |
| `DtlsRecords.SealedRecordIsConsumed` | appPhoRent/Pods/BoringSSL-GRPC/ssl/dtls_record.cc:177-272 | a sealed record of a version the receiver accepts is consumed alone and whole, whatever becomes of it: of any epoch, replayed or not, opened or not |
| `DtlsRecords.DatagramIsReadWhole` | appPhoRent/Pods/BoringSSL-GRPC/ssl/ssl_buffer.cc:187-226 | reading a datagram record by record meets each record that was put into it, in order, whatever the handshake does in between; each is opened exactly when it is of the current epoch and no replay, and otherwise dropped alone |
| `DtlsRecords.FreshRecordsAreAccepted` | appPhoRent/Pods/BoringSSL-GRPC/ssl/dtls_record.cc:225-259 | records of one datagram with increasing numbers do not push each other out of the window |
| `DtlsRecords.DatagramDelivers` | appPhoRent/Pods/BoringSSL-GRPC/ssl/dtls_record.cc:177-272 | a datagram delivers each of its records that was fresh when it arrived, with the plaintext that was sealed, behind whichever replays or records of other epochs |
| `AeadContext.GetAdditionalData` | appPhoRent/Pods/BoringSSL-GRPC/ssl/ssl_aead_ctx.cc:203-223 | writes the specified bytes at the front of the 13-byte buffer |
| `AeadContext.AdditionalDataIsInjective` | appPhoRent/Pods/BoringSSL-GRPC/ssl/ssl_aead_ctx.cc:203-223 | the additional data determines number and type, and version and length where they are included |
| `AeadContext.AdditionalDataLayout` | appPhoRent/Pods/BoringSSL-GRPC/ssl/ssl_aead_ctx.cc:203-223 | sequence number, type, version and length stand in the order of section 6.2.3.3 of RFC 5246 |
| `AeadContext.SealedLength` | appPhoRent/Pods/BoringSSL-GRPC/ssl/ssl_aead_ctx.cc:379-405 | over any correct AEAD a sealed record is exactly prefix, input and suffix long |
| `AeadContext.OpenUndoesSeal` | appPhoRent/Pods/BoringSSL-GRPC/ssl/ssl_aead_ctx.cc:225-294 | over any correct AEAD, for every context Create makes, Open gives back what was sealed whenever the length the receiver works out from the record is the one that was sealed |
| `AeadContext.OpensOnlyIfLengthAgrees` | appPhoRent/Pods/BoringSSL-GRPC/ssl/ssl_aead_ctx.cc:234-244 | and only then: with nonces used once, and unless the receiver accepts a forgery, a record whose length is worked out wrongly does not open |
| `AeadContext.FixedTagRoundTrip` | appPhoRent/Pods/BoringSSL-GRPC/ssl/ssl_aead_ctx.cc:225-294 | with a tag of fixed length and nothing extra, Open always gives back what was sealed |
| `AeadContext.OpenBindsTheRecord` | appPhoRent/Pods/BoringSSL-GRPC/ssl/ssl_aead_ctx.cc:225-294 | whatever bytes arrive: unless it is a forgery, what opens as a record was sealed byte for byte as a record of the same number, type and, where it is authenticated, version, and gives the plaintext that went in |
| `AeadContext.AssumptionsCanBeMet` | appPhoRent/Pods/BoringSSL-GRPC/ssl/ssl_aead_ctx.cc:286-290 | what is asked of the AEAD can be had: there is a correct one that opens nothing it sealed under another nonce or other additional data |
| `AeadContext.ReplaysAreGenuine` | appPhoRent/Pods/BoringSSL-GRPC/ssl/ssl_aead_ctx.cc:225-294 | over that AEAD every sealed record may arrive as any record, and none is a forgery |
| `AeadContext.Open` | appPhoRent/Pods/BoringSSL-GRPC/ssl/ssl_aead_ctx.cc:225-294 | the method does what the specification says, with its failures |
| `AeadContext.SealScatter` | appPhoRent/Pods/BoringSSL-GRPC/ssl/ssl_aead_ctx.cc:296-377 | prefix, body and suffix are the parts of the sealed record, of exactly the announced lengths |
| `AeadContext.Seal` | appPhoRent/Pods/BoringSSL-GRPC/ssl/ssl_aead_ctx.cc:379-405 | succeeds exactly when the record fits, fills the front of the output with it and leaves the rest alone; a failure writes nothing |
| `WriteBuffer.SSLBuffer.EnsureCap` | appPhoRent/Pods/BoringSSL-GRPC/ssl/ssl_buffer.cc:47-81 | keeps the contents and makes room, exactly when the capacity fits 16 bits |
| `WriteBuffer.SSLBuffer.Append` | appPhoRent/Pods/BoringSSL-GRPC/ssl/ssl_buffer.cc:83-88 | adds at the end |
| `WriteBuffer.SSLBuffer.Consume` | appPhoRent/Pods/BoringSSL-GRPC/ssl/ssl_buffer.cc:90-97 | takes from the front, as long as the 16-bit offset does not wrap around |
| `WriteBuffer.SSLBuffer.DiscardConsumed` | appPhoRent/Pods/BoringSSL-GRPC/ssl/ssl_buffer.cc:99-103 | keeps the contents |
| `WriteBuffer.SSLBuffer.Clear` | appPhoRent/Pods/BoringSSL-GRPC/ssl/ssl_buffer.cc:39-45 | empties the buffer and gives up its memory |
| `AppWrite.Writer.Flush` | appPhoRent/Pods/BoringSSL-GRPC/ssl/ssl_buffer.cc:239-252 | hands the buffered bytes to the transport in order, each once and never taking any back, until the buffer is empty or the transport stops |
| `AppWrite.Writer.WritePending` | appPhoRent/Pods/BoringSSL-GRPC/ssl/s3_pkt.cc:202-218 | a pending record is reported only after all of it is with the transport; a retry at another place, of another type or with less data returns no success, leaves the record pending and the transport alone |
| `AppWrite.Writer.WriteRecord` | appPhoRent/Pods/BoringSSL-GRPC/ssl/s3_pkt.cc:221-289 | adds to what was sealed the flight that was left and then the sealing of just this data, or reports the pending record; succeeds whenever nothing goes wrong |
| `AppWrite.Writer.WriteAppData` | appPhoRent/Pods/BoringSSL-GRPC/ssl/s3_pkt.cc:129-200 | over any run of calls that retry with the same or more data: the plaintext sealed is what was reported, then the part of the current call that is done, then the one pending record, each byte once and in order; each record is the sealing of its plaintext under a number of its own; a call only adds records, behind the flight that was left; a call resumes what was left pending and completes when the transport does; after a close_notify nothing is written; early data stays within the limit of the ticket, and the handshake is asked for when that is used up |
| `AppWrite.Writer.WriteFragments` | appPhoRent/Pods/BoringSSL-GRPC/ssl/s3_pkt.cc:158-199 | from where the last call stopped on: what is reported is a prefix of the data with nothing left pending, all of it unless partial writes are allowed; a call that stops early notes how far it came, so that it can be resumed |
| `AppWrite.ItemsTile` | appPhoRent/Pods/BoringSSL-GRPC/ssl/s3_pkt.cc:246-289 | records tile the plaintext and flights and records tile the wire, in the order in which they were made |
| `AppWrite.RecordCarriesItsBytes` | appPhoRent/Pods/BoringSSL-GRPC/ssl/s3_pkt.cc:129-289 | each record on the wire is the sealing of its own stretch of what callers handed in: the stretch starts where the records before it end, its bytes on the wire where the items before it end |
| `AppWrite.WrittenAsHandedIn` | appPhoRent/Pods/BoringSSL-GRPC/ssl/s3_pkt.cc:129-289 | over any run of calls what the transport has been given, what is reported and what is sealed only grow; a record once sealed stays, at its place on the wire, the sealing under a number no other record has of the very bytes at its place in the data; flights come out as they went in |
| `AppWrite.Writer.ValidIsSound` | appPhoRent/Pods/BoringSSL-GRPC/ssl/s3_pkt.cc:129-289 | what every call keeps of a writer is what the runs are made of, and each call ensures that it follows on the state before it |
| `AppWrite.ExtendsFurther` | appPhoRent/Pods/BoringSSL-GRPC/ssl/s3_pkt.cc:254-266 | over several records the flight that was left still comes first, and once |
| `AppWrite.Writer.AddToFlight` | appPhoRent/Pods/BoringSSL-GRPC/ssl/s3_both.cc:135-166 | handshake data joins the flight that is left, behind what is there |
| `AppWrite.Writer.SealRecord` | appPhoRent/Pods/BoringSSL-GRPC/ssl/s3_pkt.cc:235-285 | on success adds to the log exactly the flight that was left and then one record, the sealing of the data under the next number; on failure at most the flight; without trouble it succeeds |
| `AppWrite.Writer.QueueFlight` | appPhoRent/Pods/BoringSSL-GRPC/ssl/s3_pkt.cc:254-266 | adds to the log exactly the flight that was left, if any, and then there is none |
| `Session.SessionRoundTrip` | appPhoRent/Pods/BoringSSL-GRPC/ssl/ssl_asn1.cc:527-757 | for every combination of fields, parsing what was serialised gives the session in its normal form (certificates give way to their hash, an empty ticket or ALPN becomes absent) exactly when version, cipher, verify result and certificates are acceptable, and fails otherwise |
| `Session.TakenIsField` | appPhoRent/Pods/BoringSSL-GRPC/ssl/ssl_asn1.cc:200-399 | each optional field is taken back as it was written, present or absent |
| `Session.TicketLosesIdAndTicket` | appPhoRent/Pods/BoringSSL-GRPC/ssl/ssl_asn1.cc:200-399 | the ticket form is parseable exactly when the full form is, and loses only session ID and ticket |
| `Session.ParsedIsStable` | appPhoRent/Pods/BoringSSL-GRPC/ssl/ssl_asn1.cc:527-757 | a parsed session survives another round unchanged |
| `Session.ParsedIsShaped` | appPhoRent/Pods/BoringSSL-GRPC/ssl/ssl_asn1.cc:527-757 | whatever elements are parsed, the session is within all the limits of its type and of the parser, and could have been serialised but for the shape of a first certificate |
| `Session.OnlyTheFormatParses` | appPhoRent/Pods/BoringSSL-GRPC/ssl/ssl_asn1.cc:527-757 | nothing else parses: behind the header there are only fields of the format, each at most once and in the order of their tags |
| `SessionState.Cbb.SessionToBytes` | appPhoRent/Pods/BoringSSL-GRPC/ssl/ssl_asn1.cc:200-399 | the serialiser, appending step by step, writes the specified elements |
| `SessionState.Cbs.ParseNumber` | appPhoRent/Pods/BoringSSL-GRPC/ssl/ssl_asn1.cc:488-525 | an optional integer with its default and its range check; the cursor moves behind it |
| `SessionState.Cbs.GetOctets` | appPhoRent/Pods/BoringSSL-GRPC/ssl/ssl_asn1.cc:407-486 | an optional octet string; the cursor moves behind it |
| `SessionState.ParseOptional` | appPhoRent/Pods/BoringSSL-GRPC/ssl/ssl_asn1.cc:598-744 | the optional fields, in order, accepted exactly when all are readable and nothing follows |
| `SessionState.SessionParse` | appPhoRent/Pods/BoringSSL-GRPC/ssl/ssl_asn1.cc:527-757 | the parser over its cursor is the specification function |
| `HandshakeScript.SendOne` | appPhoRent/Pods/BoringSSL-GRPC/ssl/handshake.cc:176-184 | a message sent is the next of the common history, and enters the sender's transcript once |
| `HandshakeScript.ReadOne` | appPhoRent/Pods/BoringSSL-GRPC/ssl/handshake.cc:215-222 | a message read is the next of the common history, and enters the reader's transcript once |
| `HandshakeScript.ReadHello` | appPhoRent/Pods/BoringSSL-GRPC/ssl/handshake_client.cc:695-712 | reading the hello of the peer starts the hash over the same messages as the buffer |
| `HandshakeScript.FreeBuffer` | appPhoRent/Pods/BoringSSL-GRPC/ssl/handshake_client.cc:1073-1143 | the buffer may be given up wherever no CertificateVerify can follow |
| `HandshakeScript.ReadsCcs` | appPhoRent/Pods/BoringSSL-GRPC/ssl/handshake.cc:500-545 | where a ChangeCipherSpec is due, nothing else is received, and it comes next |
| `HandshakeScript.SkipOne` | appPhoRent/Pods/BoringSSL-GRPC/ssl/handshake_client.cc:891-1071 | a stage both sides agreed to leave out is left out by both |
| `HandshakeScript.NextInLine` | appPhoRent/Pods/BoringSSL-GRPC/ssl/handshake_client.cc:821-869 | the message first in line belongs at the reader's next present stage and was said by the other side, so peeking at its type decides optional messages correctly |
| `HandshakeSteps.FinishedMatches` | appPhoRent/Pods/BoringSSL-GRPC/ssl/handshake.cc:380-429 | the Finished that comes is the one that is expected: both cover the same messages |
| `HandshakeSteps.VerifyMatches` | appPhoRent/Pods/BoringSSL-GRPC/ssl/handshake_server.cc:1269-1363 | a CertificateVerify is checked over the messages it was signed over, and the transcript buffer is still there |
| `HandshakeSteps.SaysFinished` | appPhoRent/Pods/BoringSSL-GRPC/ssl/handshake.cc:431-476 | the Finished sent covers the whole common history so far |
| `HandshakeSteps.SaysVerify` | appPhoRent/Pods/BoringSSL-GRPC/ssl/handshake_client.cc:1373-1455 | the CertificateVerify sent signs the whole common history so far, read from a buffer that is there |
| `HandshakeSteps.ClientStepKeeps` | appPhoRent/Pods/BoringSSL-GRPC/ssl/handshake_client.cc:385-1789 | every step of the client, whatever callbacks decide, keeps the invariant that joins the two machines to one history |
| `HandshakeSteps.ServerStepKeeps` | appPhoRent/Pods/BoringSSL-GRPC/ssl/handshake_server.cc:426-1621 | every step of the server, whatever callbacks decide, keeps the invariant that joins the two machines to one history |
| `HandshakeRun.NextKeepsInv` | appPhoRent/Pods/BoringSSL-GRPC/ssl/handshake.cc:491-628 | every event keeps that invariant: a step of either side, flushing any part of a flight, receiving any number of messages; the history only grows |
| `HandshakeRun.RunKeepsInv` | appPhoRent/Pods/BoringSSL-GRPC/ssl/handshake.cc:491-628 | every sequence of events keeps the invariant, and the history only grows |
| `HandshakeRun.NobodyStuck` | appPhoRent/Pods/BoringSSL-GRPC/ssl/handshake.cc:491-628 | in every state of the invariant somebody can go on, unless a callback refused or both are done |
| `HandshakeRun.EveryRunFollowsTheScript` | appPhoRent/Pods/BoringSSL-GRPC/ssl/handshake_client.cc:1707-1789 | in every run from the start, full or resumed, with any pauses and retries: no side meets a message, a Finished or a signature it does not expect, none reads its transcript buffer after it was freed, and each transcript is the common history, each message once and in order, up to where the side has come |
| `HandshakeRun.BothDoneAgree` | appPhoRent/Pods/BoringSSL-GRPC/ssl/handshake_server.cc:1539-1621 | when both are done, both have hashed the same whole handshake |
| `HandshakeRun.NoRunIsStuck` | appPhoRent/Pods/BoringSSL-GRPC/ssl/handshake.cc:491-628 | as long as no callback refuses, either a step is possible or both are done |
| `HandshakeGuards.ClientRetries` | appPhoRent/Pods/BoringSSL-GRPC/ssl/handshake_client.cc:871-1511 | where a callback has no answer yet (certificate verification, client certificate, signature, Channel ID), the client stays as it is: state, messages, output and hash; the step then ends as it would have at once |
| `HandshakeGuards.ClientDoesNotAsk` | appPhoRent/Pods/BoringSSL-GRPC/ssl/handshake_client.cc:385-1705 | in every other state nothing depends on a pending callback |
| `HandshakeGuards.ServerRetries` | appPhoRent/Pods/BoringSSL-GRPC/ssl/handshake_server.cc:432-1140 | where a callback has no answer yet (early and certificate callbacks, session lookup, signature, certificate verification, decryption), the server stays exactly as it is, and goes on once there is one |
| `HandshakeGuards.ServerDoesNotAsk` | appPhoRent/Pods/BoringSSL-GRPC/ssl/handshake_server.cc:426-1540 | in every other state nothing depends on a pending callback |
| `HandshakeGuards.ClientChecksFinished` | appPhoRent/Pods/BoringSSL-GRPC/ssl/handshake.cc:380-430 | a message first in line where the server's Finished is due is a protocol error if and only if it is not a Finished with the MAC over the client's own transcript |
| `HandshakeGuards.ServerChecksFinished` | appPhoRent/Pods/BoringSSL-GRPC/ssl/handshake.cc:380-430 | a message first in line where the client's Finished is due is a protocol error if and only if it is not a Finished with the MAC over the server's own transcript |
| `HandshakeGuards.ServerChecksVerify` | appPhoRent/Pods/BoringSSL-GRPC/ssl/handshake_server.cc:1269-1363 | a message first in line where a CertificateVerify is due is a protocol error if and only if it is not one with the signature over all that was said so far |
| `HandshakeGuards.ClientReadsWhatIsDue` | appPhoRent/Pods/BoringSSL-GRPC/ssl/handshake_client.cc:771-1674 | in each state the client reads just the message that is due there, fails on one it may not leave for a later state, and waits where there is none |
| `HandshakeGuards.ClientReadsHello` | appPhoRent/Pods/BoringSSL-GRPC/ssl/handshake_client.cc:535-760 | only a ServerHello is read first, and starts the hash over the messages in the buffer |
| `HandshakeGuards.ClientReadsNothingElse` | appPhoRent/Pods/BoringSSL-GRPC/ssl/handshake_client.cc:385-1705 | everywhere else nothing is read, and nothing may be left unread before a ChangeCipherSpec |
| `HandshakeGuards.ServerReadsWhatIsDue` | appPhoRent/Pods/BoringSSL-GRPC/ssl/handshake_server.cc:949-1461 | in each state the server reads just the message that is due there, fails on any other, and waits where there is none |
| `HandshakeGuards.ServerReadsHello` | appPhoRent/Pods/BoringSSL-GRPC/ssl/handshake_server.cc:432-684 | only a ClientHello is taken up, and it is read once, when the parameters are settled |
| `HandshakeGuards.ServerReadsNothingElse` | appPhoRent/Pods/BoringSSL-GRPC/ssl/handshake_server.cc:426-1540 | everywhere else nothing is read, and nothing may be left unread before a ChangeCipherSpec |
| `HandshakeGuards.ClientDoneMeans` | appPhoRent/Pods/BoringSSL-GRPC/ssl/handshake_client.cc:871-1705 | whatever its peer sends, a client that is done has met a Finished over its own transcript, and in a full handshake with certificates its callback had accepted the server's before |
| `HandshakeGuards.ServerDoneMeans` | appPhoRent/Pods/BoringSSL-GRPC/ssl/handshake_server.cc:1042-1540 | whatever its peer sends, a server that is done has met a Finished over its own transcript; and if it holds a client certificate in a full handshake, its callback had accepted it, and a signature over all that was said had been checked |
| `HandshakeEnds.HandshakeCompletes` | appPhoRent/Pods/BoringSSL-GRPC/ssl/handshake.cc:491-628 | with callbacks that agree and a transport that takes and brings something, every run, in any order of events, is of bounded length and goes on until both sides are done |
| `HandshakeEnds.RunToTheEnd` | appPhoRent/Pods/BoringSSL-GRPC/ssl/handshake.cc:491-628 | every such run can be gone on with to one in which both sides are done |
| `HandshakeEnds.LessWork` | appPhoRent/Pods/BoringSSL-GRPC/ssl/handshake.cc:491-628 | each such event leaves less to do |
| `HandshakeDriver.ClientProgress` | appPhoRent/Pods/BoringSSL-GRPC/ssl/handshake_client.cc:1707-1789 | a step goes on, waits for a message it does not have, fails, or is to be tried again |
| `HandshakeDriver.ServerProgress` | appPhoRent/Pods/BoringSSL-GRPC/ssl/handshake_server.cc:1539-1621 | a step of the server goes on, waits for a message it does not have, fails, or is to be tried again |
| `HandshakeDriver.Connection.ClientHandshake` | appPhoRent/Pods/BoringSSL-GRPC/ssl/handshake_client.cc:1707-1789 | the loop over the steps is a run of the model, and stops only where it has to wait or be retried |
| `HandshakeDriver.Connection.RunClient` | appPhoRent/Pods/BoringSSL-GRPC/ssl/handshake.cc:491-628 | the driver is a run of the model; it returns, fails only where a callback refused, blocks only with something unflushed or nothing to read, and asks to be called again only after a callback did |
| `HandshakeDriver.Connection.ServerHandshake` | appPhoRent/Pods/BoringSSL-GRPC/ssl/handshake_server.cc:1539-1621 | the loop over the server steps is a run of the model, and stops only where it has to wait or be retried |
| `HandshakeDriver.Connection.RunServer` | appPhoRent/Pods/BoringSSL-GRPC/ssl/handshake.cc:491-628 | the driver on the server is a run of the model; it returns, fails only where a callback refused, blocks only with something unflushed or nothing to read, and asks to be called again only after a callback did |

## Left out

Scope:

- The application's own Swift and JavaScript (user interface, Firestore calls) and the tables, wrappers and file helpers of BoringSSL: no hard property.
- Cryptography itself: the AEAD is any pair of functions with the round-trip law, hashes are the hashed messages, MACs and signatures functions of them.
- Allocation failure everywhere, and error-queue contents; alerts are modelled only where they decide a result.

DTLS:

- DtlsSenderState.Dtls1State.SealRecord: claims hold until the first record number that is reported to have wrapped around; after that nothing is promised but that the log only grows. A failing random generator, which only ciphers with random nonces use, and sealing in place inside the packet buffer are not modelled.
- DtlsSenderState.Dtls1State.SendFlight: when sealing fails in the middle of a packet, the cursor stays past what was sealed into the lost packet, as in the code; what is sent afterwards is then not claimed to be contiguous.
- DtlsSenderState.Dtls1State.SetWriteState: after the 16-bit write epoch has wrapped around nothing is claimed; the read epoch is assumed not to wrap around.
- DtlsEndToEnd.DeliveredIsWhatWasSaid: the sender is at most 2^16 messages ahead of the receiver, as the 16-bit numbers cannot tell more apart (`BeyondTheNumberSpace` shows that they cannot); records that open are those that were sealed.
- DtlsDelivery.AcceptedIsComplete: a message is expected only while the numbers of the window do not wrap around, because the code drops a wrapped number until the window has come to it. That a lossy network brings the records at all is not claimed.
- The fields of DTLS1_STATE on the sending side are grouped in one value, so aliasing between them is not modelled. HelloVerifyRequest, timers and the memory of the read buffer are left out.

nanopb:

- Callbacks, extensions, pointer fields (`PB_ENABLE_MALLOC`), `PB_WITHOUT_64BIT`, `pb_encode_delimited` and its kind, and streams that are not over a buffer.
- A message is a tree keyed by descriptor position, passed by value: struct offsets, padding, what is behind a terminator or past a count, and the partly filled struct after a failure are not modelled. Where the decoder leaves memory alone, zero stands for what was there.
- Lengths are unbounded, so `size_t` wrap-around is not modelled; the round trip is claimed for encodings of less than 2^63 bytes, more than any object has.
- Descriptor tables are finite trees: recursive message types are unfolded as deep as a message goes.
- PbRoundTrip.MessageRoundTrip: leaves out fixed-count arrays inside submessages without a presence flag, because there the presence test reads a count that the struct does not have (pb_encode.c:225-229).

TLS:

- AeadContext.OpenUndoesSeal: on byte strings; overlapping buffers, the fuzzer mode and the `assert`s on buffer aliasing are not modelled. SSL 3.0 contexts are created with the lengths of the code, TLS 1.3 key derivation is not modelled.
- AeadContext.OpenBindsTheRecord: that an opening is no forgery is assumed of the opening at hand; bounds on how likely forgeries are belong to the cipher.
- AppWrite.Writer.WriteAppData: a retry with less data than before is outside the promise (the code then forgets how far it had come). `tls_seal_record` and the transport are functions, a pending flight is at most 2^14 bytes, and the length is not negative. Alerts, flushing a flight on its own and the read side are left out.
- WriteBuffer.SSLBuffer.Consume: for capacities above 0xffff less the alignment slack the 16-bit `offset_` can wrap around, and then the contents are not claimed; writers stay below.
- Session.SessionRoundTrip: DER is a list of tagged elements, so its length encodings are not modelled; each certificate is one element, and the certificate cache a predicate.
- HandshakeSteps.ServerStepKeeps: as for the client, below.
- HandshakeSteps.ClientStepKeeps: the `do_*` steps are functions from state to state rather than methods on fields; the drivers around them are methods. Message bodies are arbitrary, except what Finished, CertificateVerify and an empty Certificate mean; what hello messages negotiate is given as agreed parameters. SSL 3.0, V2ClientHello, TLS 1.3, False Start, early data, renegotiation, the DTLS branches and handoff add branches, not depth, and are left out.

Reference counts:

- RefCount.RunRefinesLocked: sequential consistency, the default order of the C11 operations used; `abort` is a thread that stops. The refinement is claimed up to the first decrement that sees zero, which aborts.
