# Verified models of the DTLS handshake, the client handshake and nanopb

The application links two vendored libraries that carry its protocol logic: BoringSSL, with
DTLS and TLS, and nanopb, a Protocol Buffers codec driven by field descriptors. This project
models three of their components in Dafny and proves what each promises. `dafny verify
dfyconfig.toml` checks all of it.

## The DTLS handshake transport

Section numbers are those of RFC 6347.

- `Coverage` is one message under reassembly with its bit-packed map of received bytes.
  `Reassembly` is the receiving ring as a state machine on values, `Receiver` the same ring as
  objects and arrays, proved step by step against it, with a bound on what a peer can make it
  store. `EndToEnd` shows that fragmentation,
  loss, repetition and reordering are invisible (4.2.2, 4.2.3, 4.2.6), for flights that may
  end with a ChangeCipherSpec and a message under new keys.
- `FlightPlan` says what the pieces of a flight are and what a sequence of them delivers;
  `FlightSender` is the sender, with its two-part cursor, the rewind when the transport
  refuses a packet, and retransmission on timeouts; it says exactly when sealing is refused
  and when a flight can be sent. `Delivery` puts the flight and the receiver together.
- `ReplayWindow` proves that the 64-bit sliding window decides like the set of all accepted
  numbers (4.1.2.6). `RecordLayer` opens and seals records, decides every record by the fields
  of its header, and shows that record numbers are distinct until a counter overflows;
  `Datagrams` opens whole packets of sealed records.
  `Network` composes all of this: datagrams of a flight, reordered, repeated and lost, opened
  past the window and across the change of epochs, yield its messages.
- `RetransmitTimer` is the backoff timer (4.2.4.1), which also holds the MTU that timeouts
  lower and the sender uses. `Transport` holds the protocol methods that act on several of
  these parts at once.

## The client handshake

`ClientHandshake` has one function per state of the client up to TLS 1.2. Cryptography,
certificate verification, parsing and the TLS 1.3 machine are answers of the environment, so
every theorem holds for all of them. Hashing a message and taking it off the queue are separate
effects, and a state that returns at a retry point returns what it has made of the handshake
by then. `HandshakeSteps` says, in both directions, when each state moves on. `HandshakeRuns`
proves safety over whole runs, the conservation of transcript and messages, that no retry point
leaves a trace and pauses are transparent, and a bound on the number of steps.
`HandshakeCompletion` is the other side of safety: with a sound server the handshake completes. `HandshakeOrder` shows that a
completed run follows a message flow of section 7.3 of RFC 5246. `HandshakeDriver` has the two
loops around the states.

## nanopb

The configuration is the default one: no dynamic allocation, 8-bit sizes, 64-bit integers.
A message is the tree of values in its struct; `Schema` describes descriptors and messages,
`Encoding` and `Decoding` say as functions which bytes a message has and what a stream of
bytes means, and `Varint` does so for integers. `FieldCursor`, `OutputStream` and
`InputStream` are the cursor and the streams as they run, proved against those functions.
`WireFormat` says what the bytes are, by position, value and length, without these functions.
`RoundTrip`, `Merge`, `Submessages`, `Evolution`, `Codec` and `Presence` hold the main results.

`Bits`, `Wire` and `Wrappers` are shared: words as natural numbers with bit-level lemmas,
big-endian integers and the handshake fragment header, and an option type.

## Where the code differs from what it seems to promise

- d1_both.cc ignores fragments "too far in the future", but compares with `>` where the ring
  compares with `>=`: the number exactly N past the current one is an error
  (`Reassembly.FirstNumberPastTheWindow`).
- A sealing error in the middle of a packet leaves the cursor beyond bytes that were never
  sent; only a refusal by the transport rewinds it. `FlightSender.Loses` decides this before
  the call, from queue, cursor, counters, AEADs and MTU: with a transport that takes
  everything, `FlightSender.Sender.SendFlight` loses something if and only if it holds, and a
  flight that has been sent is delivered if and only if nothing was lost.
  `FlightSender.OversizedRecordLosesMessage` is an input, with an MTU above 65,548;
  `FlightSender.SmoothFlows` says that it never happens below, with keys for every message,
  room in the counters and an AEAD that does not fail.
- A retransmitted fragment is ignored, but not under new keys: there the message that was
  already taken is an UnexpectedRecord. `EndToEnd.FragmentationIsInvisible` has the exact
  condition; a copy of a record that was opened does not get that far (`Network.FrontIsRead`).
- nanopb's 32-bit varint reader accepts some values above 2^32
  (`Varint.Decode32Encode` says exactly which of the encoder's outputs).
- nanopb does not compare the wire type of a known field with its kind: a varint field with
  wire type 2 is read as a varint (`WireFormat.WireTypeIsNotChecked`).
- A nanopb message type without fields rejects a field with tag zero that every other message
  type skips (`Merge.ZeroTagNeedsFields`).
- Only the first 64 required fields are checked for presence. A successful decode means that
  every required field was on the wire if and only if there are at most 64 of them
  (`Presence.PresenceIsCheckedIff`); `Presence.SixtyFifthIsMissed` is a type with 65.

## Model

| member | source | states |
|---|---|---|
| Coverage.BitRangeBits | MySimpleTest/Pods/BoringSSL-GRPC/ssl/d1_both.cc:201-205 | `bit_range` computed at width 32 and narrowed to a byte has exactly the bits from start, inclusive, to end, exclusive, below bit 8 |
| Coverage.HmFragment.constructor | MySimpleTest/Pods/BoringSSL-GRPC/ssl/d1_both.cc:152-199 | a new message has the header of the whole message, a zeroed body, nothing received, and no bitmap exactly when it is empty |
| Coverage.HmFragment.SetBits | MySimpleTest/Pods/BoringSSL-GRPC/ssl/d1_both.cc:226-236 | marking a range sets just its bits, whatever bytes it straddles, and leaves every other bit |
| Coverage.HmFragment.IsFull | MySimpleTest/Pods/BoringSSL-GRPC/ssl/d1_both.cc:238-247 | the byte-wise completeness test succeeds exactly when every body byte has been received |
| Coverage.HmFragment.Mark | MySimpleTest/Pods/BoringSSL-GRPC/ssl/d1_both.cc:211-251 | the set of received bytes grows by exactly the marked range, and the bitmap is freed exactly when that makes the message complete |
| Coverage.HmFragment.Write | MySimpleTest/Pods/BoringSSL-GRPC/ssl/d1_both.cc:399-401 | the body of a fragment lands at its offset and nothing else in the buffer changes |
| Wire.HeaderRoundTrip | MySimpleTest/Pods/BoringSSL-GRPC/ssl/d1_both.cc:459-473 | a header written with its 24- and 16-bit fields parses back to itself |
| Wire.ParseFragmentExact | MySimpleTest/Pods/BoringSSL-GRPC/ssl/d1_both.cc:459-473 | a fragment parses exactly when the bytes are a fragment followed by the rest, and consumes just that |
| Wire.BigEndianByte | MySimpleTest/Pods/BoringSSL-GRPC/ssl/d1_both.cc:459-473 | the i-th of w bytes is the number divided by 256^(w-1-i): most significant byte first |
| Wire.HeaderOnTheWire | MySimpleTest/Pods/BoringSSL-GRPC/ssl/d1_both.cc:514-524 | message type, length, number, fragment offset and fragment length lie in 1, 3, 2, 3 and 3 bytes |
| Reassembly.AcceptKeepsValid | MySimpleTest/Pods/BoringSSL-GRPC/ssl/d1_both.cc:352-403 | every fragment leaves the ring well formed: each stored message lies in the window and carries its own header |
| Reassembly.HeaderDecides | MySimpleTest/Pods/BoringSSL-GRPC/ssl/d1_both.cc:362-390 | by its header alone: EXCESSIVE_MESSAGE_SIZE exactly if it reaches beyond its message or the message beyond the limit; under keys only the current message; before the window or far past it, ignored; an error, with its cause, otherwise; an error stores nothing |
| Reassembly.FragmentIsStored | MySimpleTest/Pods/BoringSSL-GRPC/ssl/d1_both.cc:389-402 | a fragment that is taken adds exactly its byte range to its own message, which then has its bytes at its offset, and touches no other message |
| Reassembly.StorageIsBounded | MySimpleTest/Pods/BoringSSL-GRPC/ssl/d1_both.cc:362-370 | over every run whose records keep the limit at most L, at most N messages are stored, and none is longer than L |
| Reassembly.WindowIsInjective | MySimpleTest/Pods/BoringSSL-GRPC/ssl/d1_both.cc:267-276 | two numbers of the window with the same ring place are equal, so the assertion that the stored message has the right number cannot fail |
| Reassembly.NextKeepsValid | MySimpleTest/Pods/BoringSSL-GRPC/ssl/d1_both.cc:426-432 | moving to the next message keeps the ring well formed, and the 16-bit counter wraps only when all places are empty |
| Reassembly.FirstNumberPastTheWindow | MySimpleTest/Pods/BoringSSL-GRPC/ssl/d1_both.cc:267-271 | a well-formed unencrypted fragment is refused as outside the window exactly when its number is read_seq + N: the filter at lines 380-382 lets that one number through |
| Reassembly.RunDeliversInOrder | MySimpleTest/Pods/BoringSSL-GRPC/ssl/d1_both.cc:408-432 | over every sequence of records and requests, messages come out once each, in number order (modulo 2^16), without gaps and each as one unfragmented message |
| Receiver.MessageRing.GetIncomingMessage | MySimpleTest/Pods/BoringSSL-GRPC/ssl/d1_both.cc:265-295 | finds or makes the message of a fragment exactly as the value-level ring does, with the same errors |
| Receiver.MessageRing.AcceptFragment | MySimpleTest/Pods/BoringSSL-GRPC/ssl/d1_both.cc:362-402 | one fragment takes the objects from one ring to the next with the verdict of the state machine, which `Reassembly.HeaderDecides` and `Reassembly.FragmentIsStored` give by the fields of the header |
| Receiver.MessageRing.ProcessRecord | MySimpleTest/Pods/BoringSSL-GRPC/ssl/d1_both.cc:350-406 | a record is parsed and stored fragment by fragment; on an error the fragments before it stay |
| Receiver.MessageRing.OpenHandshake | MySimpleTest/Pods/BoringSSL-GRPC/ssl/d1_both.cc:297-348 | dispatch on the content type: handshake records go to the ring, an unencrypted ChangeCipherSpec of one byte is noted, application data is an error before and dropped after encryption starts |
| Receiver.MessageRing.OpenChangeCipherSpec | MySimpleTest/Pods/BoringSSL-GRPC/ssl/d1_both.cc:475-490 | succeeds exactly on a ChangeCipherSpec noted earlier or arriving now, clears the note, and keeps a handshake record that comes first |
| Receiver.MessageRing.GetMessage | MySimpleTest/Pods/BoringSSL-GRPC/ssl/d1_both.cc:408-424 | the current message with its header, exactly when every byte of it has arrived |
| Receiver.MessageRing.NextMessage | MySimpleTest/Pods/BoringSSL-GRPC/ssl/d1_both.cc:426-432 | drops the current message and is the Next step of the ring |
| Receiver.MessageRing.HasUnprocessedHandshakeData | MySimpleTest/Pods/BoringSSL-GRPC/ssl/d1_both.cc:440-457 | true exactly when a ChangeCipherSpec or some message other than the one being read is stored |
| EndToEnd.AcceptFollows | MySimpleTest/Pods/BoringSSL-GRPC/ssl/d1_both.cc:352-403 | a fragment of the flight, or a late one of an earlier flight, is never refused, and after it the ring holds just what has been heard |
| EndToEnd.CompleteIffCovered | MySimpleTest/Pods/BoringSSL-GRPC/ssl/d1_both.cc:255-259 | the current message is complete exactly when the fragments heard cover all its bytes, and is then the message as queued |
| EndToEnd.FragmentationIsInvisible | MySimpleTest/Pods/BoringSSL-GRPC/ssl/d1_both.cc:297-432 | for every way of cutting, packing, losing, repeating and reordering a flight, with a ChangeCipherSpec and a message in the new epoch at its end and with late fragments of earlier flights: the messages handed over are the first of the flight exactly as queued, the next is available exactly when covered, the switch of keys is never refused, and there is an error exactly if the message in the new epoch is repeated after it was taken |
| EndToEnd.SwitchFollows | MySimpleTest/Pods/BoringSSL-GRPC/ssl/dtls_method.cc:81-95 | when the handshake, having had the plain messages, switches the read keys, nothing of the old epoch is left over that could stop it |
| EndToEnd.RepeatIsError | MySimpleTest/Pods/BoringSSL-GRPC/ssl/d1_both.cc:297-348 | in the new epoch a fragment of the message that was already taken is an UnexpectedRecord, and changes nothing else |
| EndToEnd.Drain | MySimpleTest/Pods/BoringSSL-GRPC/ssl/d1_both.cc:408-432 | asking yields every message up to the first that is not covered, as queued |
| FlightPlan.NextAdvances | MySimpleTest/Pods/BoringSSL-GRPC/ssl/d1_both.cc:726-733 | every piece sealed moves the (written, offset) cursor strictly forward |
| FlightPlan.WalkDelivers | MySimpleTest/Pods/BoringSSL-GRPC/ssl/d1_both.cc:739-769 | pieces that lead from the start of a flight to a cursor carry every byte before it exactly once and in order, and nothing after it |
| FlightPlan.FullWalkDeliversFlight | MySimpleTest/Pods/BoringSSL-GRPC/ssl/d1_both.cc:797-815 | pieces that lead all the way carry every message completely and each ChangeCipherSpec once |
| FlightPlan.FinishedMessageIsWhole | MySimpleTest/Pods/BoringSSL-GRPC/ssl/d1_both.cc:511-537 | a message started and finished is one fragment covering the whole message |
| FlightSender.Sender.SealNextMessage | MySimpleTest/Pods/BoringSSL-GRPC/ssl/d1_both.cc:644-734 | one record with the next piece of the next message, or the reason why not, with the cursor, counters and output it leaves; `FlightSender.EpochDecides` says which, by the fields of message and writer |
| FlightSender.EpochDecides | MySimpleTest/Pods/BoringSSL-GRPC/ssl/d1_both.cc:650-733 | a message of the current epoch is sealed with the current keys and counter, one of the epoch before with the previous ones, under its own epoch, if there is room for a header and a byte, the AEAD encrypts, the record stays below 2^16 bytes and a 48-bit number is left; any other epoch is refused and changes nothing |
| FlightSender.PacketWalks | MySimpleTest/Pods/BoringSSL-GRPC/ssl/d1_both.cc:739-780 | the pieces in a datagram continue the walk of the cursor, strictly forward, in whole records that fit the limit |
| FlightSender.Sender.SealNextPacket | MySimpleTest/Pods/BoringSSL-GRPC/ssl/d1_both.cc:739-780 | a packet is produced exactly if no record is refused and some piece fits; it holds those records, and on failure the cursor stands behind what was sealed |
| FlightSender.Sender.UpdateMtu | MySimpleTest/Pods/BoringSSL-GRPC/ssl/d1_both.cc:615-632 | an MTU below the minimum is replaced by a plausible answer of the transport or by the default |
| FlightSender.SmoothPacket | MySimpleTest/Pods/BoringSSL-GRPC/ssl/d1_both.cc:739-780 | with message epochs that have keys, a total AEAD, room in the counters and an MTU that keeps records below 2^16 bytes, every packet succeeds |
| FlightSender.SmoothFlows | MySimpleTest/Pods/BoringSSL-GRPC/ssl/d1_both.cc:782-827 | under these conditions every datagram to the end of the flight can be filled, and then nothing is lost |
| FlightSender.OversizedRecordLosesMessage | MySimpleTest/Pods/BoringSSL-GRPC/ssl/dtls_record.cc:335-341 | a sealing error that loses a message: with an MTU that admits records beyond 2^16 bytes, a short message followed by one that long |
| FlightSender.Sender.SendPacket | MySimpleTest/Pods/BoringSSL-GRPC/ssl/d1_both.cc:798-814 | a packet the transport refuses leaves cursor and record of what was sent unchanged; what was sealed is lost exactly if a later record of the packet is refused |
| FlightSender.LostIsMissed | MySimpleTest/Pods/BoringSSL-GRPC/ssl/d1_both.cc:782-827 | a flight of which something was lost is not delivered |
| FlightSender.DeliveredIffNothingLost | MySimpleTest/Pods/BoringSSL-GRPC/ssl/d1_both.cc:782-827 | at the end of the flight, what was sent carries every byte exactly once and in order if and only if nothing was lost |
| FlightSender.Sender.SendFlight | MySimpleTest/Pods/BoringSSL-GRPC/ssl/d1_both.cc:782-827 | terminates, with packets within the MTU; with a transport that takes everything it returns 1 exactly if every datagram can be filled, and loses something exactly if one is refused with something in it, both decided by queue, counters and MTU before the call; on success the whole flight is delivered exactly if nothing was lost before |
| FlightSender.Sender.Retransmit | MySimpleTest/Pods/BoringSSL-GRPC/ssl/d1_both.cc:836-845 | from its start, the whole flight again: complete on success, which with a transport that takes everything comes exactly if every datagram can be filled |
| FlightSender.Sender.FlushFlight | MySimpleTest/Pods/BoringSSL-GRPC/ssl/d1_both.cc:829-834 | marks the flight complete, starts the timer for one duration, and sends what is left of the flight, with the same guarantees |
| FlightSender.Sender.HandleTimeout | MySimpleTest/Pods/BoringSSL-GRPC/ssl/d1_lib.cc:247-268 | acts exactly when the timer has expired: counts, backs off, restarts the timer and retransmits the whole flight, until the thirteenth timeout in a row fails |
| FlightSender.Sender.ClearOutgoing | MySimpleTest/Pods/BoringSSL-GRPC/ssl/d1_both.cc:500-509 | empties the queue and rewinds the cursor |
| FlightSender.Sender.AddOutgoing | MySimpleTest/Pods/BoringSSL-GRPC/ssl/d1_both.cc:555-594 | queues at the end, after dropping a complete flight and stopping the timer; the transcript and the 16-bit message number grow only with handshake messages that were queued |
| FlightSender.Sender.AddMessage | MySimpleTest/Pods/BoringSSL-GRPC/ssl/d1_both.cc:511-537 | the transcript receives the single-fragment form of the message under the next number |
| Delivery.RawQueues | MySimpleTest/Pods/BoringSSL-GRPC/ssl/d1_both.cc:584-592 | queueing the messages of a flight, with a ChangeCipherSpec before one in the new epoch, gives the queue the theorems speak of |
| Delivery.TransmissionIsAuthentic | MySimpleTest/Pods/BoringSSL-GRPC/ssl/d1_both.cc:702-713 | whatever the packet sizes, every record sent brings a fragment of a message of the flight in its epoch, or the ChangeCipherSpec |
| Delivery.OneTransmissionSuffices | MySimpleTest/Pods/BoringSSL-GRPC/ssl/d1_both.cc:782-827 | if the records of one complete transmission are among those that arrive, those of the new epoch after the keys are switched, in any order and mixed with others and with earlier flights, the receiver hands over the whole flight as queued |
| Network.PacketTravels | MySimpleTest/Pods/BoringSSL-GRPC/ssl/d1_both.cc:739-780 | every datagram the sender fills is the wire form of records that each bring one piece of the flight |
| Network.RecordIsHeeded | MySimpleTest/Pods/BoringSSL-GRPC/ssl/d1_both.cc:297-348 | a record of the flight, opened, does to the handshake just what its piece says |
| Network.RecordLayerIsInvisible | MySimpleTest/Pods/BoringSSL-GRPC/ssl/dtls_record.cc:177-272 | whatever datagrams of the flight arrive, in any order and however often, opening them record by record past the replay window and the switch of epochs is, for the handshake, a run of its arrivals |
| Network.FlightsAreDelivered | MySimpleTest/Pods/BoringSSL-GRPC/ssl/d1_both.cc:297-432 | whatever datagrams arrive, in whatever order, repeated or lost, what is handed over is the beginning of the flight exactly as queued; only a message of the new epoch that is sent anew after it was taken stops the receiver, with everything handed over |
| Network.OpenedFlightIsComplete | MySimpleTest/Pods/BoringSSL-GRPC/ssl/d1_both.cc:782-827 | if the records of one complete transmission are opened, the receiver has the whole flight as queued, whatever else arrives |
| Transport.TakeMessage | MySimpleTest/Pods/BoringSSL-GRPC/ssl/d1_both.cc:426-438 | taking a message after a complete flight notes that the flight has been answered |
| Transport.SetReadState | MySimpleTest/Pods/BoringSSL-GRPC/ssl/dtls_method.cc:81-95 | the read epoch changes exactly when nothing but the message being read is stored, and the new epoch starts with an empty window |
| Transport.OnHandshakeComplete | MySimpleTest/Pods/BoringSSL-GRPC/ssl/dtls_method.cc:71-79 | the timer stops, and the last flight is kept for retransmission unless it has been answered |
| ReplayWindow.ToU64 | MySimpleTest/Pods/BoringSSL-GRPC/ssl/dtls_record.cc:128-136 | the shifting loop computes the big-endian value of eight bytes |
| ReplayWindow.DiscardsExactly | MySimpleTest/Pods/BoringSSL-GRPC/ssl/dtls_record.cc:140-150 | the window discards a number exactly if it was accepted before or lies 64 or more behind an accepted one |
| ReplayWindow.RecordRepresents | MySimpleTest/Pods/BoringSSL-GRPC/ssl/dtls_record.cc:155-175 | recording a number that is not stale makes the window stand for the set with that number added |
| ReplayWindow.WindowRefinesSet | MySimpleTest/Pods/BoringSSL-GRPC/ssl/dtls_record.cc:225-259 | over every run of records, the 64-bit window decides as the unbounded set of accepted numbers does |
| ReplayWindow.NoReplay | MySimpleTest/Pods/BoringSSL-GRPC/ssl/dtls_record.cc:225-259 | no number is accepted twice in an epoch |
| ReplayWindow.Bitmap.ShouldDiscard | MySimpleTest/Pods/BoringSSL-GRPC/ssl/dtls_record.cc:140-150 | the answer in terms of the set of numbers accepted so far |
| ReplayWindow.Bitmap.Record | MySimpleTest/Pods/BoringSSL-GRPC/ssl/dtls_record.cc:155-175 | adds exactly the number recorded to that set |
| RecordLayer.ParseRecordBytes | MySimpleTest/Pods/BoringSSL-GRPC/ssl/dtls_record.cc:192-205 | the record header written by one side is the one read by the other |
| RecordLayer.RecordOnTheWire | MySimpleTest/Pods/BoringSSL-GRPC/ssl/dtls_record.cc:320-345 | content type, version, epoch, number and length lie in 1, 2, 2, 6 and 2 bytes, most significant first, and the body follows |
| RecordLayer.RecordReader.OpenRecord | MySimpleTest/Pods/BoringSSL-GRPC/ssl/dtls_record.cc:177-272 | the verdict on a datagram, which `RecordLayer.RecordIsDecided` gives field by field, and that a record counts as seen only when it opened to a plaintext of legal length; anything dropped leaves the window alone |
| RecordLayer.RecordIsDecided | MySimpleTest/Pods/BoringSSL-GRPC/ssl/dtls_record.cc:192-272 | for a record at the front of a datagram: without keys every version with high byte 0xfe is read, under keys the negotiated one alone; another version, or a body over 16384 + 320 bytes, drops the whole datagram; another epoch, a stale number or a failing AEAD drops the record; then the plaintext is limited to 16384 bytes and alerts are set apart |
| RecordLayer.RecordReader.SetReadState | MySimpleTest/Pods/BoringSSL-GRPC/ssl/dtls_method.cc:89-93 | the next epoch with an empty window |
| RecordLayer.UpdateSequence | MySimpleTest/Pods/BoringSSL-GRPC/ssl/tls_record.cc:154-163 | a 48-bit increment that reports overflow exactly when it wraps |
| RecordLayer.RecordWriter.SealRecord | MySimpleTest/Pods/BoringSSL-GRPC/ssl/dtls_record.cc:294-351 | a record is sealed exactly if the AEAD encrypts into the room there is, the ciphertext is below 2^16 bytes and a number is left; it carries the next number of its epoch, which encrypting has used up even on failure; unless a counter has overflowed, all records sealed so far have distinct (epoch, number) pairs |
| RecordLayer.RecordWriter.SetWriteState | MySimpleTest/Pods/BoringSSL-GRPC/ssl/dtls_method.cc:97-107 | the next epoch counts from zero, the previous one stays usable with its counter |
| RecordLayer.SealedRecordOpens | MySimpleTest/Pods/BoringSSL-GRPC/ssl/dtls_record.cc:177-272 | a sealed record at the front of a datagram opens to its plaintext unless stale or of another epoch, and uses up exactly its own bytes; before keys whatever DTLS version it has, with keys if it has the one agreed |
| RecordLayer.ShortRecordIsDropped | MySimpleTest/Pods/BoringSSL-GRPC/ssl/dtls_record.cc:192-205 | fewer bytes than header and body need drop the datagram |
| Datagrams.PacketOpens | MySimpleTest/Pods/BoringSSL-GRPC/ssl/dtls_record.cc:177-272 | opening a packet of sealed records yields exactly those that are fresh when their turn comes, in order |
| Datagrams.NewRecordsAreFresh | MySimpleTest/Pods/BoringSSL-GRPC/ssl/dtls_record.cc:140-175 | records numbered upwards from beyond everything accepted all get through |
| RetransmitTimer.BackoffIsExponential | MySimpleTest/Pods/BoringSSL-GRPC/ssl/d1_lib.cc:155-160 | k doublings of d at most a minute give min(60000, d * 2^k) milliseconds, in 32-bit arithmetic |
| RetransmitTimer.Timer.Start | MySimpleTest/Pods/BoringSSL-GRPC/ssl/d1_lib.cc:120-136 | a normalised deadline exactly one duration after now; the first start sets the initial duration |
| RetransmitTimer.Timer.Stop | MySimpleTest/Pods/BoringSSL-GRPC/ssl/d1_lib.cc:162-166 | no deadline, no timeouts counted, initial duration |
| RetransmitTimer.Timer.GetTimeout | MySimpleTest/Pods/BoringSSL-GRPC/ssl/d1_lib.cc:197-245 | the time left, normalised, exact to the microsecond, zero below 15,000 microseconds, and clamped at INT_MAX seconds |
| RetransmitTimer.Timer.CheckTimeoutNum | MySimpleTest/Pods/BoringSSL-GRPC/ssl/d1_lib.cc:168-187 | counts a timeout, lowers the MTU after two, fails after twelve |
| RetransmitTimer.Timer.HandleTimeout | MySimpleTest/Pods/BoringSSL-GRPC/ssl/d1_lib.cc:247-267 | the timer part: acts exactly when less than 15 ms are left; the k-th timeout in a row sets the k-th backoff, the thirteenth fails |
| HandshakeSteps.StartConnectOffersSession | MySimpleTest/Pods/BoringSSL-GRPC/ssl/handshake_client.cc:385-452 | sends a ClientHello exactly if nothing internal fails, and never waits; the configured session is offered exactly if usable, under its own id; otherwise the id is fresh if TLS 1.3 is enabled |
| HandshakeSteps.EarlyDataSwitchesKeys | MySimpleTest/Pods/BoringSSL-GRPC/ssl/handshake_client.cc:454-489 | on to HelloVerifyRequest in DTLS, otherwise to ServerHello; write keys switched, with an early return, exactly if early data was offered over TLS |
| HandshakeSteps.CookieRestartsTranscript | MySimpleTest/Pods/BoringSSL-GRPC/ssl/handshake_client.cc:491-533 | moves on with any message; a HelloVerifyRequest is consumed without being hashed and the transcript becomes the second ClientHello; another message is left alone |
| HandshakeSteps.ServerHelloIsChecked | MySimpleTest/Pods/BoringSSL-GRPC/ssl/handshake_client.cc:535-759 | moves on if and only if the version is enabled and does not change and, up to TLS 1.2, no early data was offered, the cipher is allowed, there is no compression, an echoed session has this version, cipher, extended master secret and context, and no other id of the client's is echoed, so that a fresh id is a full handshake; the message is hashed and consumed once, or left to TLS 1.3 |
| HandshakeSteps.Tls13HandsOver | MySimpleTest/Pods/BoringSSL-GRPC/ssl/handshake_client.cc:761-769 | hands over to the TLS 1.3 machine, waits as it does, and moves on exactly when it is done |
| HandshakeSteps.CertificateIsRead | MySimpleTest/Pods/BoringSSL-GRPC/ssl/handshake_client.cc:771-819 | skipped exactly without certificate authentication; otherwise it moves on if and only if a non-empty chain that parses is next, recorded, hashed and consumed |
| HandshakeSteps.StatusIsOptional | MySimpleTest/Pods/BoringSSL-GRPC/ssl/handshake_client.cc:821-869 | taken exactly if expected and next; another message is left alone, and only a status that does not parse is an error |
| HandshakeSteps.CertificateIsVerified | MySimpleTest/Pods/BoringSSL-GRPC/ssl/handshake_client.cc:871-889 | with certificate authentication it moves on if and only if the chain is the one known, on renegotiation, or is otherwise accepted by callback or verifier; it waits exactly if a custom verifier asks to |
| HandshakeSteps.KeyExchangeIsSigned | MySimpleTest/Pods/BoringSSL-GRPC/ssl/handshake_client.cc:891-1071 | moves on if and only if an ephemeral cipher gets the message, RSA does not, and with a certificate cipher the signature is good; another message is left alone |
| HandshakeSteps.RequestIsOptional | MySimpleTest/Pods/BoringSSL-GRPC/ssl/handshake_client.cc:1073-1143 | moves on exactly without certificate cipher, at a ServerHelloDone, which is left alone, or with a request that parses; only the last asks for a certificate |
| HandshakeSteps.HelloDoneIsEmpty | MySimpleTest/Pods/BoringSSL-GRPC/ssl/handshake_client.cc:1145-1167 | moves on if and only if an empty ServerHelloDone is next, hashed and consumed |
| HandshakeSteps.CertificateIsSentOnRequest | MySimpleTest/Pods/BoringSSL-GRPC/ssl/handshake_client.cc:1169-1215 | sent exactly if requested, except without a certificate in SSL 3.0; waits exactly if the callback asks to |
| HandshakeSteps.KeyExchangeIsHashedFirst | MySimpleTest/Pods/BoringSSL-GRPC/ssl/handshake_client.cc:1220-1371 | the message is sent and hashed before the master secret is derived |
| HandshakeSteps.PossessionIsProved | MySimpleTest/Pods/BoringSSL-GRPC/ssl/handshake_client.cc:1373-1455 | sent exactly if a certificate was requested and there is one; waits exactly if the key operation does, leaving only the note that one is pending, which success clears |
| HandshakeSteps.FinishedCoversAll | MySimpleTest/Pods/BoringSSL-GRPC/ssl/handshake_client.cc:1457-1512 | waits exactly for a missing Channel ID key; then ChangeCipherSpec, new write keys, the optional messages, and a Finished whose MAC covers everything hashed before it, these included |
| HandshakeSteps.FalseStartIsRare | MySimpleTest/Pods/BoringSSL-GRPC/ssl/handshake_client.cc:1538-1564 | a resumed handshake is finished; a full one reads on, returning early exactly if False Start is allowed |
| HandshakeSteps.TicketIsReadIfExpected | MySimpleTest/Pods/BoringSSL-GRPC/ssl/handshake_client.cc:1566-1647 | skipped exactly if not expected; otherwise it moves on if and only if a ticket that parses is next; a renewed session keeps all but its id; then a ChangeCipherSpec is awaited |
| HandshakeSteps.ReadKeysChange | MySimpleTest/Pods/BoringSSL-GRPC/ssl/handshake_client.cc:1649-1656 | moves on exactly with the read keys switched |
| HandshakeSteps.FinishedIsMatched | MySimpleTest/Pods/BoringSSL-GRPC/ssl/handshake_client.cc:1658-1672 | moves on exactly if the message is the MAC of the transcript before it, and then hashes and consumes it |
| HandshakeSteps.CertificatesAreRecorded | MySimpleTest/Pods/BoringSSL-GRPC/ssl/handshake_client.cc:1674-1705 | completes, with the certificates recorded for renegotiation |
| ClientHandshake.Step | MySimpleTest/Pods/BoringSSL-GRPC/ssl/handshake_client.cc:1709-1776 | every step fails, asks to be repeated with nothing sent, hashed or consumed, or lowers the rank; the transcript grows by exactly the messages sent and consumed, and the queue loses exactly those consumed |
| HandshakeRuns.StepKeepsFacts | MySimpleTest/Pods/BoringSSL-GRPC/ssl/handshake_client.cc:1707-1785 | what each state knows about verification, signatures, keys, the server's Finished and resumption is kept by every step |
| HandshakeRuns.ServerFinishedStep | MySimpleTest/Pods/BoringSSL-GRPC/ssl/handshake.cc:380-429 | the server's Finished is checked against the transcript without itself, under the new read keys |
| HandshakeRuns.FinishedStep | MySimpleTest/Pods/BoringSSL-GRPC/ssl/handshake.cc:431-476 | the client's Finished covers everything said and heard before it, after the write keys changed |
| HandshakeRuns.RunKeepsInvariant | MySimpleTest/Pods/BoringSSL-GRPC/ssl/handshake.cc:491-628 | the invariant holds in every state of every run |
| HandshakeRuns.CompletedHandshakesAreSafe | MySimpleTest/Pods/BoringSSL-GRPC/ssl/handshake_client.cc:1707-1789 | a completed handshake up to TLS 1.2 accepted a ChangeCipherSpec, then switched read keys, then matched the server's Finished under the master secret of the handshake; a full one with a certificate cipher verified, and recorded, the certificate it received and, where a ServerKeyExchange is required, checked its signature; a resumed one uses the configured session's master secret, cipher and version |
| HandshakeCompletion.SoundHandshakesComplete | MySimpleTest/Pods/BoringSSL-GRPC/ssl/handshake_client.cc:1707-1789 | whatever sound choices a server makes (any enabled version up to TLS 1.2, any allowed cipher, resuming or not, with or without ticket, status, certificate request), with an environment that objects to nothing there is a run to the end, with that version and cipher, and resumed exactly if the server echoed the id of the session offered |
| HandshakeCompletion.EveryCipherCanBeNegotiated | MySimpleTest/Pods/BoringSSL-GRPC/ssl/handshake_client.cc:626-757 | on a first handshake every enabled version up to TLS 1.2 can be negotiated with every cipher allowed for it, in a full handshake, whatever session is offered |
| HandshakeCompletion.StepProceeds | MySimpleTest/Pods/BoringSSL-GRPC/ssl/handshake_client.cc:1709-1776 | on such a run every state with the message it needs moves on, to a lower rank, with a wait that ends by itself or with the ChangeCipherSpec, and stays on track |
| HandshakeRuns.FalseStartIsAuthenticated | MySimpleTest/Pods/BoringSSL-GRPC/ssl/handshake_client.cc:1514-1561 | False Start happens only in a full TLS 1.2 handshake over TLS with an ephemeral AEAD cipher, and with a certificate cipher only after certificate and signature were verified |
| HandshakeRuns.TranscriptIsConserved | MySimpleTest/Pods/BoringSSL-GRPC/ssl/handshake_client.cc:520-533 | in every state the transcript is the messages sent and consumed since the last reset, each once and in order, HelloVerifyRequest excepted; a reset follows each HelloVerifyRequest at once and happens nowhere else |
| HandshakeRuns.ErrorsAreFinal | MySimpleTest/Pods/BoringSSL-GRPC/ssl/handshake.cc:496-498 | after an error nothing changes any more, and the handshake is not complete |
| HandshakeRuns.PauseLeavesNoTrace | MySimpleTest/Pods/BoringSSL-GRPC/ssl/handshake_client.cc:1709-1776 | a state that asks to be repeated leaves transcript, queue, session, keys and everything else as it found them, but for the note that a key operation is pending |
| HandshakeRuns.StepTakesNoNotice | MySimpleTest/Pods/BoringSSL-GRPC/ssl/ssl_privkey.cc:196-222 | a step that does not wait does the same whether or not it has waited before, its key operation was pending, or further messages have arrived behind the one it reads |
| HandshakeRuns.MessagesAreConserved | MySimpleTest/Pods/BoringSSL-GRPC/ssl/handshake_client.cc:176-198 | the messages consumed and those still queued are, in order, all that ever arrived |
| HandshakeRuns.PausesAreTransparent | MySimpleTest/Pods/BoringSSL-GRPC/ssl/handshake.cc:558-607 | however often a run waits, and whenever messages arrive, it ends as the handshake that has all messages and keys from the start, gets the same productive answers and never waits |
| HandshakeRuns.SameAnswersSameRun | MySimpleTest/Pods/BoringSSL-GRPC/ssl/handshake.cc:613-619 | two runs with the same messages and the same productive answers, whatever their pauses, say and hear the same in the same order |
| HandshakeRuns.ProductiveStepsAreBounded | MySimpleTest/Pods/BoringSSL-GRPC/ssl/handshake_client.cc:176-198 | at most twenty productive steps, by a rank that also orders the states of a resumed handshake |
| HandshakeRuns.ResumptionIsSettled | MySimpleTest/Pods/BoringSSL-GRPC/ssl/handshake_client.cc:752-758 | whether a session is resumed does not change after the ServerHello |
| HandshakeOrder.EveryStepSpeaks | MySimpleTest/Pods/BoringSSL-GRPC/ssl/handshake_client.cc:1712-1776 | each state contributes to the conversation just what it may, and leads to the next state of the order at hand |
| HandshakeOrder.MessagesFollowTheFlow | MySimpleTest/Pods/BoringSSL-GRPC/ssl/handshake_client.cc:1707-1789 | everything said and heard by a completed handshake is, in order, the full or the resumed message flow of section 7.3 of RFC 5246: NewSessionTicket exactly if the ServerHello announced it, Certificate, ServerKeyExchange, CertificateVerify and the closing messages as cipher, request and extensions call for; optional are only the cookie, an announced CertificateStatus, a CertificateRequest and the ServerKeyExchange of a PSK cipher |
| HandshakeDriver.Client.ClientHandshake | MySimpleTest/Pods/BoringSSL-GRPC/ssl/handshake_client.cc:1707-1789 | the loop stops exactly at a wait, an error or completion, and is a run of the machine |
| HandshakeDriver.Client.RunHandshake | MySimpleTest/Pods/BoringSSL-GRPC/ssl/handshake.cc:491-628 | the loop terminates on every finite supply of transport operations, is a run of the machine, and returns 1 without early return only for a completed, safe handshake |
| HandshakeOrder.FlowOfFull | MySimpleTest/Pods/BoringSSL-GRPC/ssl/handshake_client.cc:176-198 | the states in order spell out the full message flow |
| HandshakeDriver.VerifyPeer | MySimpleTest/Pods/BoringSSL-GRPC/ssl/handshake.cc:285-360 | on renegotiation the certificates must be identical, compared one by one; otherwise the callback or the verifier decides, and an invalid answer is tolerated only with a callback in mode none |
| Varint.EncodeLength | MySimpleTest/Pods/nanopb/pb_encode.c:574-594 | a varint takes at most m bytes exactly for values below 2^(7m) |
| WireFormat.VarintByte | MySimpleTest/Pods/nanopb/pb_encode.c:574-594 | the i-th byte has the i-th group of seven bits, lowest first, and its top bit exactly if more follow |
| Varint.DecodeEncode | MySimpleTest/Pods/nanopb/pb_decode.c:250-270 | every 64-bit value survives, and exactly its own bytes are consumed |
| Varint.DecodeAnything | MySimpleTest/Pods/nanopb/pb_decode.c:250-270 | any bytes: a varint ends with the first byte below 128, which must be among the first ten, and stands for its seven-bit groups modulo 2^64 |
| Varint.EndlessIsRefused | MySimpleTest/Pods/nanopb/pb_decode.c:250-270 | a stream that ends within a varint is an error |
| Varint.Decode32Encode | MySimpleTest/Pods/nanopb/pb_decode.c:182-242 | what the 32-bit reader makes of the bytes of any 64-bit value, in all cases |
| Varint.Decode32Anything | MySimpleTest/Pods/nanopb/pb_decode.c:182-242 | any bytes, up to 37: up to four groups count, a fifth byte that is the last must be below 16, otherwise its low four bits count, and whatever follows is dropped if it is zero or looks like a sign extension, and an error else |
| Varint.Decode32Refuses | MySimpleTest/Pods/nanopb/pb_decode.c:216-225 | values from 2^32 up to 2^63 are refused |
| Varint.Decode32Negative | MySimpleTest/Pods/nanopb/pb_decode.c:216-225 | negative 32-bit numbers written with 64 bits give their low 32 bits |
| Varint.ZigzagRoundTrip | MySimpleTest/Pods/nanopb/pb_decode.c:1240-1252 | zigzag is the identity on every signed 64-bit value |
| Varint.ZigzagValue | MySimpleTest/Pods/nanopb/pb_encode.c:596-605 | the code of v is 2v, or -2v - 1 if v is negative |
| Varint.FixedRoundTrip | MySimpleTest/Pods/nanopb/pb_decode.c:1254-1286 | fixed-width integers come back |
| WireFormat.FixedByte | MySimpleTest/Pods/nanopb/pb_encode.c:607-632 | the i-th byte of a fixed-width integer is its i-th byte from below |
| WireFormat.NumberOnTheWire | MySimpleTest/Pods/nanopb/pb_encode.c:732-810 | what each kind and size of number field can hold, by two's-complement ranges, and the bytes it takes: negative numbers as 64-bit varints, zigzag as 2n or -2n - 1, four or eight bytes |
| WireFormat.ValueOnTheWire | MySimpleTest/Pods/nanopb/pb_encode.c:641-672 | key and value by kind: wire type 0 for varints, 5 and 1 for 32 and 64 bits, otherwise 2 with a length; bytes and submessages are written exactly if they fit their field and encode |
| WireFormat.StringOnTheWire | MySimpleTest/Pods/nanopb/pb_encode.c:828-855 | a string goes up to its first NUL or the end of its buffer |
| WireFormat.EncodesExactly | MySimpleTest/Pods/nanopb/pb_encode.c:494-516 | a message, submessages included, is encoded if and only if every value that is present lies in the range or has the length of its field and no array is too long |
| WireFormat.SignedAccepted | MySimpleTest/Pods/nanopb/pb_decode.c:1289-1324 | a signed field of less than eight bytes takes the low 32 bits of a varint as two's complement, and refuses exactly what it cannot hold |
| WireFormat.UnsignedAccepted | MySimpleTest/Pods/nanopb/pb_decode.c:1326-1348 | an unsigned field of k bytes holds exactly what is below 2^(8k) |
| WireFormat.ZigzagAccepted | MySimpleTest/Pods/nanopb/pb_decode.c:1350-1372 | a zigzag field takes u as u/2 or -(u/2) - 1, by its parity, and refuses exactly what it cannot hold |
| WireFormat.BlobAccepted | MySimpleTest/Pods/nanopb/pb_decode.c:1391-1508 | by literal lengths: bytes and strings that leave room for their length or terminator, fixed-length bytes of just that length, or none, which means zeros |
| WireFormat.DelimitedTaken | MySimpleTest/Pods/nanopb/pb_decode.c:367-380 | as many bytes as the length says, or an error if there are fewer |
| WireFormat.WireTypeIsNotChecked | MySimpleTest/Pods/nanopb/pb_decode.c:401-475 | the wire type of a known field matters only in telling a packed array from a single element |
| WireFormat.ZeroEndsMessage | MySimpleTest/Pods/nanopb/pb_decode.c:293-314 | a zero byte in the place of a key ends the message and leaves what follows |
| WireFormat.PackedAndUnpackedAgree | MySimpleTest/Pods/nanopb/pb_decode.c:417-456 | an array of numbers decodes alike from its packed form and from one key per element, overflow included |
| WireFormat.FreshMessage | MySimpleTest/Pods/nanopb/pb_decode.c:812-895 | in a fresh message nothing is present and what has a value has its default, or zero, or nothing |
| Schema.HomeIsHome | MySimpleTest/Pods/nanopb/pb_common.c:44-50 | the members of a union share the place of the first one |
| FieldCursor.UnionSharesAddress | MySimpleTest/Pods/nanopb/pb_common.c:44-50 | every member of a union has the address of its first member |
| FieldCursor.NextAddress | MySimpleTest/Pods/nanopb/pb_common.c:51-73 | each field starts its offset behind the one before, an array being its size times its element's; members of one union start together |
| FieldCursor.FieldsAreDisjoint | MySimpleTest/Pods/nanopb/pb_common.c:51-73 | behind a field that is the last of its union, or in none, every later field starts at or after its last byte, that of its last array element included |
| FieldCursor.FieldIter.Begin | MySimpleTest/Pods/nanopb/pb_common.c:8-18 | the cursor at the first field; false for an empty descriptor |
| FieldCursor.FieldIter.Next | MySimpleTest/Pods/nanopb/pb_common.c:20-76 | one field on or back to the first; address, size address and required index remain a function of the position alone |
| FieldCursor.FieldIter.Find | MySimpleTest/Pods/nanopb/pb_common.c:78-95 | terminates from every position; finds a field exactly if some field has the tag (an empty descriptor has the zero tag), else ends where it began |
| FieldCursor.WordCheckIsExact | MySimpleTest/Pods/nanopb/pb_decode.c:1027-1045 | comparing fields_seen by words succeeds exactly when each of the first 64 required fields was seen |
| FieldCursor.CheckRequired | MySimpleTest/Pods/nanopb/pb_decode.c:1006-1046 | walking the cursor to the last field counts the required fields from wherever decoding left it |
| Presence.FewFieldsAreChecked | MySimpleTest/Pods/nanopb/pb_decode.c:1006-1046 | with at most 64 required fields, whatever is decoded successfully has had each of them on the wire |
| Presence.SomeFieldIsMissed | MySimpleTest/Pods/nanopb/pb_decode.c:1006-1046 | with more, the bytes of a valid message up to the 65th required field are accepted, though that field is not among them |
| Presence.PresenceIsCheckedIff | MySimpleTest/Pods/nanopb/pb_decode.c:988-993 | presence of all required fields is checked if and only if there are at most 64 |
| Presence.SixtyFifthIsMissed | MySimpleTest/Pods/nanopb/pb_decode.c:1006-1046 | a message type with 65 required fields of which the last can be missing |
| OutputStream.OStream.BufWrite | MySimpleTest/Pods/nanopb/pb_encode.c:72-82 | bytes are copied to the write position and nowhere else |
| OutputStream.OStream.Write | MySimpleTest/Pods/nanopb/pb_encode.c:101-119 | all of the bytes or none, within the limit; a sizing stream only counts |
| OutputStream.FillVarint | MySimpleTest/Pods/nanopb/pb_encode.c:576-591 | the loop never leaves its ten bytes and produces the varint |
| OutputStream.OStream.EncodeVarint | MySimpleTest/Pods/nanopb/pb_encode.c:574-594 | writes exactly the varint, or fails for lack of room |
| OutputStream.OStream.EncodeSvarint | MySimpleTest/Pods/nanopb/pb_encode.c:596-605 | shift and complement, then a varint |
| OutputStream.OStream.EncodeFixed32 | MySimpleTest/Pods/nanopb/pb_encode.c:607-616 | four little-endian bytes |
| OutputStream.OStream.EncodeFixed64 | MySimpleTest/Pods/nanopb/pb_encode.c:619-632 | eight little-endian bytes |
| OutputStream.OStream.EncodeTag | MySimpleTest/Pods/nanopb/pb_encode.c:635-639 | the key, with the wire type in its low three bits |
| OutputStream.OStream.EncodeTagForField | MySimpleTest/Pods/nanopb/pb_encode.c:641-672 | the wire type of each kind of field |
| OutputStream.OStream.EncodeString | MySimpleTest/Pods/nanopb/pb_encode.c:674-680 | length and bytes |
| OutputStream.OStream.EncodeSubmessage | MySimpleTest/Pods/nanopb/pb_encode.c:682-730 | succeeds exactly when length and message fit: the size found by the first pass is the size written by the second, so the size-changed error is unreachable |
| OutputStream.OStream.EncodeStaticArray | MySimpleTest/Pods/nanopb/pb_encode.c:126-211 | packed whenever the elements allow it; too many elements are an error |
| OutputStream.OStream.EncodeBasicField | MySimpleTest/Pods/nanopb/pb_encode.c:307-392 | required, present optional, repeated and selected union fields, and nothing else |
| OutputStream.OStream.EncodeOne | MySimpleTest/Pods/nanopb/pb_encode.c:732-868 | the encoder function of each kind of field, with its size checks |
| OutputStream.OStream.PbEncode | MySimpleTest/Pods/nanopb/pb_encode.c:494-516 | every field in order; bytes before the write position and beyond the limit stay as they were, also on failure |
| Codec.GetEncodedSize | MySimpleTest/Pods/nanopb/pb_encode.c:533-542 | the sizing pass succeeds exactly when there is an encoding and finds its length |
| Codec.EncodeToBuffer | MySimpleTest/Pods/nanopb/pb_encode.c:494-516 | encoding into an n-byte buffer succeeds exactly when there is an encoding, which `WireFormat.EncodesExactly` decides, and its size is at most n, and writes just those bytes |
| InputStream.IStream.BufRead | MySimpleTest/Pods/nanopb/pb_decode.c:85-98 | copies the bytes at the read position, or skips them |
| InputStream.IStream.Read | MySimpleTest/Pods/nanopb/pb_decode.c:100-132 | all of the bytes or none; the end of the stream stays where it is |
| InputStream.IStream.ReadByte | MySimpleTest/Pods/nanopb/pb_decode.c:136-152 | one byte, or none at the end |
| InputStream.IStream.DecodeVarint32Eof | MySimpleTest/Pods/nanopb/pb_decode.c:182-242 | agrees with the 32-bit reader on every input; end of stream is reported only before the first byte |
| InputStream.IStream.DecodeVarint | MySimpleTest/Pods/nanopb/pb_decode.c:250-270 | agrees with the 64-bit reader on every input |
| InputStream.IStream.SkipVarint | MySimpleTest/Pods/nanopb/pb_decode.c:273-282 | moves past one varint of any length |
| InputStream.IStream.DecodeTag | MySimpleTest/Pods/nanopb/pb_decode.c:293-314 | a zero key ends the message |
| InputStream.IStream.SkipField | MySimpleTest/Pods/nanopb/pb_decode.c:316-326 | agrees with the function of `Evolution.WireTypeDecides`, `Evolution.VarintIsSkipped` and `Evolution.DelimitedIsSkipped` on every stream |
| Evolution.WireTypeDecides | MySimpleTest/Pods/nanopb/pb_decode.c:316-326 | wire type 1 takes eight bytes and 5 takes four, or fails at the end; all types but 0, 1, 2 and 5 are errors |
| Evolution.VarintIsSkipped | MySimpleTest/Pods/nanopb/pb_decode.c:273-282 | a varint is skipped up to and with the first byte below 128, however long |
| Evolution.DelimitedIsSkipped | MySimpleTest/Pods/nanopb/pb_decode.c:284-291 | a length and as many bytes |
| InputStream.IStream.MakeStringSubstream | MySimpleTest/Pods/nanopb/pb_decode.c:367-380 | the substream delivers exactly the delimited bytes, and the parent what follows them |
| InputStream.IStream.CloseStringSubstream | MySimpleTest/Pods/nanopb/pb_decode.c:382-395 | the parent continues right after the substream, read or not |
| InputStream.IStream.DecVarint | MySimpleTest/Pods/nanopb/pb_decode.c:1289-1324 | narrow signed fields look at 32 bits and refuse what they cannot hold |
| InputStream.IStream.DecUvarint | MySimpleTest/Pods/nanopb/pb_decode.c:1326-1348 | unsigned fields refuse what they cannot hold |
| InputStream.IStream.DecSvarint | MySimpleTest/Pods/nanopb/pb_decode.c:1350-1372 | zigzag fields refuse what they cannot hold |
| InputStream.IStream.DecBlob | MySimpleTest/Pods/nanopb/pb_decode.c:1391-1508 | length checks of bytes, strings and fixed-length bytes |
| InputStream.IStream.DecSubmessage | MySimpleTest/Pods/nanopb/pb_decode.c:1463-1485 | agrees with the decoding function; `Submessages` says what that makes of more than one occurrence |
| Submessages.OccurrencesMerge | MySimpleTest/Pods/nanopb/pb_decode.c:1475-1480 | two occurrences of a required or optional submessage leave what a single one with both payloads would: fields of the first survive the second |
| Submessages.EntriesStartFresh | MySimpleTest/Pods/nanopb/pb_decode.c:1475-1480 | two entries of an array are each decoded from the defaults, and both are appended in order |
| Submessages.LastMemberRemains | MySimpleTest/Pods/nanopb/pb_decode.c:459-468 | of two members of a union the last alone remains, also if it is the same member twice |
| InputStream.IStream.DecodeStaticField | MySimpleTest/Pods/nanopb/pb_decode.c:401-475 | packed and unpacked arrays, unions and presence flags |
| InputStream.IStream.PbDecodeNoinit | MySimpleTest/Pods/nanopb/pb_decode.c:901-1049 | agrees with the decoding function on every input, from whatever cursor position; success preserves the end of the stream |
| InputStream.IStream.PbDecode | MySimpleTest/Pods/nanopb/pb_decode.c:1051-1063 | the same on a struct set to its defaults |
| InputStream.SetToDefaults | MySimpleTest/Pods/nanopb/pb_decode.c:812-895 | defaults field by field, recursively |
| RoundTrip.MessageRoundTrip | MySimpleTest/Pods/nanopb/pb_decode.c:901-1063 | for every descriptor and every valid message, decoding the encoded bytes into a fresh struct restores the message up to absent fields at their defaults |
| RoundTrip.RestoredEncodesAlike | MySimpleTest/Pods/nanopb/pb_encode.c:494-516 | the restored message encodes to the same bytes, so no present value was lost |
| RoundTrip.ValidEncodes | MySimpleTest/Pods/nanopb/pb_encode.c:307-392 | the encoder succeeds on every valid message |
| Codec.Transfer | MySimpleTest/Pods/nanopb/pb_decode.c:1051-1063 | a valid message through a buffer comes out restored; the only failure is a buffer that is too small |
| Merge.ConcatenationIsMerge | MySimpleTest/Pods/nanopb/pb_decode.c:919-997 | without required fields, decoding A followed by B is decoding A and then B into the same struct |
| Merge.SeenGrows | MySimpleTest/Pods/nanopb/pb_decode.c:988-993 | required fields seen stay seen |
| Merge.UnknownFieldsAreInvisible | MySimpleTest/Pods/nanopb/pb_decode.c:933-962 | inserting a well-formed field with an unknown tag between two fields changes nothing, whatever bytes it is made of |
| Evolution.UnknownFieldIsInvisible | MySimpleTest/Pods/nanopb/pb_decode.c:933-962 | whatever the encoder writes for a field of any kind and rule, packed arrays and submessages included, leaves no trace in a message whose descriptor lacks its tag |
| Evolution.OldReaderUnderstands | MySimpleTest/Pods/nanopb/pb_decode.c:901-1049 | schema evolution: a reader whose message type lacks the last fields of the writer's restores from every valid message exactly the fields it knows |
| Merge.ZeroTagNeedsFields | MySimpleTest/Pods/nanopb/pb_common.c:80-91 | a field with tag zero is skipped exactly by message types that have fields: on an empty one the search finds the terminator |

## Left out

- Delivery.OneTransmissionSuffices: flights whose message numbers do not wrap 2^16 and that have at most one message in the new epoch, as all flights up to TLS 1.2 do; the receiver asks for the plain messages, switches keys and asks for the last one.
- Network.OpenedFlightIsComplete: records with one fragment each, as this sender makes them, under one record version; alerts on the way and application data among the records of the flight are not part of it.
- FlightSender.Sender.SendFlight: the allocation of the packet buffer does not fail.
- FlightSender.Sender.HandleTimeout: it does not say that a timeout of a flight that can be sent ends in success, which `FlightSender.Sender.Retransmit` says.
- RecordLayer.RecordWriter.SealRecord: input and output buffers do not alias, and the AEAD is a function whose output is at most its input plus the maximum overhead.
- RecordLayer.RecordReader.OpenRecord: what alerts do after they are opened is not part of this model.

- ClientHandshake.Step: the `do_*` functions are modelled on a record of the fields they use, not as methods that update objects; what they draw and discard before a retry point (parsed copies, random numbers, alerts) is not in it; the struct after an error is not described, and all failures of parsing, allocation and cryptography that are not listed as answers are one answer.
- HandshakeSteps.Tls13HandsOver: the TLS 1.3 client is not part of this model; it fails, waits or is done.
- HandshakeSteps.StartConnectOffersSession: the contents of messages sent, random numbers, GREASE and the session checks behind "usable".
- HandshakeCompletion.SoundHandshakesComplete: one run for each server and session, in which the answers of the environment stay the same, no callback waits, no early data is offered, and the server sends no HelloVerifyRequest and no ServerKeyExchange that its cipher does not need; the run may pause for messages, and returns early where False Start has it do so.
- HandshakeRuns.CompletedHandshakesAreSafe: early data, and versions from TLS 1.3 on, are outside its condition.
- HandshakeDriver.Client.RunHandshake: the waits that only servers and TLS 1.3 use, and the error queue.
- OutputStream.OStream.PbEncode: requires values of the C types their fields are declared with and message sizes below 2^64; `Codec.ValidIsStored` shows that valid messages of such a size meet this.
- InputStream.IStream.PbDecodeNoinit: the struct after a decoding failure is not described, nor what memory of unselected union members holds.
- Presence.PresenceIsCheckedIff: asks for some valid message of the type whose encoding is shorter than 2^32 bytes; one direction, `Presence.FewFieldsAreChecked`, needs none.
- Submessages.OccurrencesMerge: submessages without required fields of their own, each occurrence of which must otherwise have them all, and a first payload that does not end itself with a zero tag.
- Evolution.OldReaderUnderstands: the fields the old reader lacks are the last ones of the new type; elsewhere `Evolution.UnknownFieldIsInvisible` speaks of one field at a time.
- RoundTrip.MessageRoundTrip: encodings shorter than 2^32 bytes, the limit of the lengths the decoder reads.
- Varint.Decode32Anything: varints of more than 37 bytes, where the reader's 8-bit counter of bits has wrapped; `InputStream.IStream.DecodeVarint32Eof` follows the reader there, too.
- nanopb with dynamic allocation, fields held by reference or encoded by callbacks, extensions, arrays of fixed count, fields without explicit presence, custom stream callbacks, and the variants with a delimiter or terminator around a message.
- Cryptography, hashing, certificate parsing, random numbers, BIOs and memory allocation: functions, answers of the environment or assumed to succeed.
- The server side of the handshake, SSL 3.0 beyond its control flow, the socket and buffer layers, and the application itself, whose Swift code is user interface and calls into services.
