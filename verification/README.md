# A verified model of TUIC's UDP relay path

TUIC relays a UDP packet by splitting it into numbered fragments, writing each fragment
behind a binary command header, and putting the fragments together again in a table indexed by
association id and packet id. The table is shared by all tasks of a connection; it collects
expired fragments and forgets associations that are dissociated. This project models that path
in Dafny and proves what it guarantees, from the sender's payload to the receiver's.

| file | what it holds |
|---|---|
| `Wrappers.dfy`, `Protocol.dfy`, `Utf8.dfy` | wire integers, addresses, command headers; which bytes are a domain name (RFC 3629) |
| `Marshal.dfy`, `Unmarshal.dfy`, `Codec.dfy` | the byte string of a header, its writers and readers, and why they are inverse |
| `FragmentArithmetic.dfy`, `Fragmentation.dfy` | the arithmetic of fragment counts and offsets, and the fragment iterator as a class |
| `Reassembly.dfy`, `UdpSessions.dfy` | buffers, sessions and the session table as values, and the same as objects updated in place |
| `Runs.dfy`, `Refinement.dfy` | any sequence of operations on the table, on values and on the objects |
| `Integrity.dfy`, `Conservation.dfy` | where delivered data comes from, and that no fragment is lost track of |
| `Delivery.dfy` | one packet in any order, with repetitions, in the middle of other traffic |
| `Sending.dfy`, `Relay.dfy`, `Streams.dfy`, `Commands.dfy` | sending a packet, accepting it from datagrams and from streams, and what every other command does |
| `EndToEnd.dfy`, `Safety.dfy`, `Refusals.dfy`, `Necessity.dfy` | the round trip over the wire, what can be delivered at all, what becomes of each single fragment, and exactly which packets make it |
| `ServerSessions.dfy` | the server's table of UDP sessions as a concurrent step machine |

The main results are these.

* **Round trip.** The fragments of a packet, sent as datagrams or on streams, read by the server or by
  a client, arriving in any order and interleaved with any other operation on the table, deliver
  exactly the original payload, address and association, once (`EndToEnd.RelayDeliversExactlyOnce`);
  so do those of any number of packets at once (`EndToEnd.FamilyIsDelivered`), in particular of all
  packets a session sends within a window of 65536 (`EndToEnd.WindowIsDelivered`). "Any other
  operation" includes fragments of other packets and associations, dissociations and collections;
  excepted are insertions of something else under the key of one of the packets, and a dissociation
  or expiry of a packet between its first fragment and its last.
* **Safety.** Without those exceptions on dissociation and expiry, with fragments lost or repeated,
  whatever is handed over under the key of a packet is what that packet carries
  (`Safety.OnlyPacketIsHandedOver`).
* **Exactness.** Where the fragmenter's subtractions and division are defined, a packet comes
  through unchanged, even without loss or reordering, if and only if it is `EndToEnd.Relayable`
  (`Necessity.ComesThroughIffRelayable`). The condition is about lengths and the address only. Of
  every other packet whose fragments all leave it is proved whether anything arrives, and what
  (`EndToEnd.SendableDelivers`, `Necessity.HandedOverIffSendable`), and the fragments all leave
  if and only if the lengths are exact or the count exceeds one byte (`Fragmentation.StaysInBoundsIff`).
* **Integrity and conservation.** In every run, with arbitrary headers, collections and
  dissociations, a delivered packet is made of exactly one accepted fragment per slot, none of which
  is used twice or after being dropped, and every accepted fragment is delivered, dropped or still held.
* **Every fragment.** In every run, what is reported for a fragment (accepted, complete, each error, each
  panic) is told from its own header and from which fragments are still held (`Refusals.RefusedForItself`,
  `Refusals.HandedFromHistory`).
* **Codec.** A header is read back with any suffix exactly when its domain fits the length field and
  no IPv6 flow info or scope id is lost; what any other header is read as is given in full; and
  whatever can be read is the one canonical encoding. Every error is tied to the bytes that cause it,
  and bytes that arrive later change no answer but "too few".
* **Server sessions.** In every interleaving the table refers to sessions that have not exited, a packet
  handler gets a session of its own association, the close signal is sent at most once, a dissociated
  session is always reached, and handlers and closed sessions can always come to their end. An open
  session need not be in the table, and the model says exactly when it is not.

Facts about the code that the model keeps, and that its documentation does not say:

* A payload whose excess over the first fragment is a positive multiple of the room in a later one is
  counted one fragment too many, and so is an empty one; if the count fits in one byte, the iterator
  indexes past the payload at the last fragment (`Fragmentation.EmptyPayloadIsOutOfBounds`,
  `Fragmentation.FullFragmentsAreOutOfBounds`).
* A count over 255 is silently cut to one byte. All fragments up to the cut count leave, never out of
  bounds, and the receiver is handed less than the payload as if it were the whole, a proper beginning of it
  unless sizes or domain are cut as well; when the cut count is 0 nothing is sent (`Necessity.OverlongHandsOverBeginning`,
  `Fragmentation.OverlongSendsNothing`).
* Flow info and scope id of an IPv6 address are not on the wire and are read back as 0
  (`Codec.ReadsAsRead`), so the address of a link-local peer arrives without its scope.
* A domain of more than 255 bytes is written in full behind its length modulo 256. It is read as its
  beginning, with its next two bytes as the port, and the payload then starts inside the domain, so
  that address and payload are silently wrong; only when the cut falls into a character is the
  fragment refused (`Codec.ReadsAsRead`, `EndToEnd.DatagramIsRead`).
* `ExactSizeIterator::len` reports the total number of fragments, which is the number left only
  before the first step.
* A fragment is checked against the total in its own header but stored in a vector sized by the header
  that created the buffer, so disagreeing headers can index past it (`Runs.MissIff`, `Runs.SlotMissHappens`).
* A refused fragment may leave a new empty buffer and session behind (`Runs.RefusedInsertion`), and a
  fragment accepted late recreates the session that was dissociated.
* The exit of an old session's listener removes the table entry by key and can remove that of a newer
  session (`ServerSessions.OpenSessionCanBeMissing`).

Panics of the program (a failed assertion, an index out of bounds) are outcomes of the model. The
clock is a parameter of the operations that read it, anew at each buffer in a collection, and time saturates as a monotonic clock does.
Payload buffers, generic in the program, are byte sequences here.

## Model

| member | source | states |
|---|---|---|
| Marshal.WriteAddress | tuic/src/marshal.rs:44-65 | appends exactly the encoding of the address, whatever the buffer holds |
| Marshal.WriteSegments | tuic/src/marshal.rs:58-61 | the loop over IPv6 segments appends each as two big-endian bytes, in order |
| Marshal.WriteHeader | tuic/src/marshal.rs:29-40 | appends version, type code and command fields, and nothing else |
| Unmarshal.Reader.ReadExact | tuic/src/unmarshal.rs:44-45 | takes exactly the bytes asked for from the front, or fails when there are fewer |
| Unmarshal.ReadAddress | tuic/src/unmarshal.rs:118-164 | the cursor-advancing reader gives the value, the remainder and the error of the decoding function |
| Unmarshal.UnmarshalHeader | tuic/src/unmarshal.rs:43-64 | likewise for all five commands |
| Codec.EncodedLength | tuic/src/protocol/mod.rs:77-85 | the computed length is the number of bytes really written, even for an oversized domain |
| Codec.RoundTrip | tuic/src/unmarshal.rs:43-64 | reading a written header followed by any bytes gives the header and leaves those bytes, if and only if its domain has at most 255 bytes and it has no IPv6 flow info or scope id |
| Codec.ReadsAsRead | tuic/src/unmarshal.rs:118-164 | what every header is read as: without flow info and scope id; an oversized domain cut short, two of its bytes as the port and the rest left before what follows, or refused when a character is cut |
| Codec.Canonical | tuic/src/unmarshal.rs:118-164 | whatever can be read is the encoding of what was read followed by the remainder |
| Codec.ReadableIffEncoded | tuic/src/unmarshal.rs:43-64 | a byte string is readable exactly when it starts with the encoding of some header |
| Codec.Unambiguous | tuic/src/marshal.rs:43-66 | no header has two encodings and no encoding is a proper prefix of another |
| Codec.TruncationIsDetected | tuic/src/unmarshal.rs:43-64 | any header cut anywhere is reported as end of stream if and only if something that reading needs is cut off |
| Codec.ReadErrors | tuic/src/unmarshal.rs:43-64 | which byte strings are refused for their version, command, address type or domain, told from the bytes; the rest is readable or ended too early |
| Codec.ReadingIsStable | tuic/src/unmarshal.rs:43-64 | more bytes behind change neither what was read nor an error other than the end of stream |
| Utf8.ValidIffEncoded | tuic/src/unmarshal.rs:134 | bytes pass as a domain name if and only if they encode some sequence of Unicode scalar values |
| Codec.PacketLayout | tuic/src/protocol/packet.rs:3-19 | every field of a packet command is at its documented offset, big-endian |
| Codec.CommandLayout | tuic/src/protocol/mod.rs:58-61 | the bytes of the other commands, type codes as literals |
| Codec.AddressLayout | tuic/src/protocol/mod.rs:88-115 | the byte layout of the four address forms |
| FragmentArithmetic.CountFormula | tuic/src/model/packet.rs:242-246 | the number of fragments counted one by one is what the division computes |
| FragmentArithmetic.CastInBoundsIff | tuic/src/model/packet.rs:242-246 | with the one-byte cast, every start is inside the payload if and only if the payload is not empty and does not exceed the first fragment by a multiple of the later room, or the count does not fit in one byte |
| FragmentArithmetic.CoversIffExact | tuic/src/model/packet.rs:268-301 | with the one-byte cast, the iteration stays in bounds and reaches the end if and only if the lengths are exact and the count fits |
| FragmentArithmetic.CountIsMinimal | tuic/src/model/packet.rs:242-246 | no split that respects the room uses fewer fragments, exactly when the excess is not a multiple |
| Fragmentation.IntoFragments | tuic/src/model/packet.rs:230-259 | in a build with overflow checks the iterator starts at fragment 0 of the packet exactly when no subtraction goes below zero and nothing is divided by zero |
| Fragmentation.DefinedIff | tuic/src/model/packet.rs:234-246 | fragmenting is defined exactly when the first header, in bytes, fits the limit and a later fragment, if one is needed, has room |
| Fragmentation.Fragments.Next | tuic/src/model/packet.rs:268-301 | yields the next header and slice, ends after the total, and indexes out of bounds exactly when the start has reached the payload length |
| Fragmentation.Fragments.Len | tuic/src/model/packet.rs:308-310 | reports the total, which is what is left only before the first step |
| Fragmentation.PartitionIffExact | tuic/src/model/packet.rs:268-301 | the iteration stays in bounds and its slices concatenate to the payload if and only if the lengths are exact and the count fits one byte |
| Fragmentation.StaysInBoundsIff | tuic/src/model/packet.rs:290 | the iteration as it runs never indexes past the payload if and only if the lengths are exact or the count exceeds 255 |
| Fragmentation.EmptyPayloadIsOutOfBounds | tuic/src/model/packet.rs:290 | an empty payload that is indexed out of bounds |
| Fragmentation.FullFragmentsAreOutOfBounds | tuic/src/model/packet.rs:290 | a payload of two full fragments that is indexed out of bounds at the third |
| Fragmentation.OverlongIsCut | tuic/src/model/packet.rs:242-246 | over 255 fragments the slices make up a proper beginning of the payload, never out of bounds |
| Fragmentation.OverlongSendsNothing | tuic/src/model/packet.rs:242-246 | a payload counted as 256 fragments, of which none is sent |
| Fragmentation.FragmentsCarry | tuic/src/model/packet.rs:268-301 | the slices are one way of carrying the whole payload within the room of each fragment |
| Fragmentation.FewestFragments | tuic/src/model/packet.rs:242-246 | no other way uses fewer |
| Fragmentation.DatagramSizes | tuic/src/model/packet.rs:270-288 | every datagram that leaves, header bytes included, also of an inexact or overlong packet, is at most the limit, and every one but the last is exactly the limit |
| Fragmentation.SizesIffLargestFits | tuic/src/model/packet.rs:281-288 | every size field is the slice length if and only if the largest slice fits two bytes |
| Fragmentation.CarriesPayloadIff | tuic/src/model/packet.rs:281-288 | what receivers take from the fragments is the payload, to its address, if and only if the lengths are exact, the count fits one byte, the largest slice two, and nothing of the address is lost |
| Reassembly.InsertKeepsResident | tuic/src/model/mod.rs:402-462 | a resident buffer stays one (slot count, received count, address exactly with slot 0, incomplete) or completes into a full packet with its address; the count never overflows |
| Reassembly.AcceptedIff | tuic/src/model/mod.rs:424-444 | exactly which fragments a resident buffer takes |
| Reassembly.AcceptedEffect | tuic/src/model/mod.rs:446-461 | an accepted fragment changes its own slot, count and address only, and delivers exactly when no other slot is empty |
| Reassembly.SlotMissIff | tuic/src/model/mod.rs:442 | the slot vector is missed exactly when the id is below the header's total but not below the stored one |
| UdpSessions.PacketBuffer.Insert | tuic/src/model/mod.rs:415-462 | the object does what the value-level insertion does, result and new state |
| UdpSessions.UdpSession.Insert | tuic/src/model/mod.rs:349-370 | creates the buffer when missing, inserts, and removes it when the packet is delivered |
| UdpSessions.UdpSession.CollectGarbage | tuic/src/model/mod.rs:372-374 | keeps exactly the buffers younger than the timeout, by whatever the clock says at each |
| UdpSessions.UdpSessions.SendPacket | tuic/src/model/mod.rs:212-222 | creates and counts the session when missing, and takes the next packet id |
| UdpSessions.UdpSessions.RecvPacketUnrestricted | tuic/src/model/mod.rs:241-255 | creates and counts the session when missing |
| UdpSessions.UdpSessions.Dissociate | tuic/src/model/mod.rs:257-265 | the session is gone, and the task counter has shrunk by one exactly when there was one |
| UdpSessions.UdpSessions.Insert | tuic/src/model/mod.rs:268-282 | inserts into the session, recreating and counting it when missing; no two sessions share state |
| UdpSessions.UdpSessions.CollectGarbage | tuic/src/model/mod.rs:284-288 | the pass over all sessions collects each of them and changes nothing else |
| UdpSessions.Assemble | tuic/src/model/mod.rs:485-512 | appends the data of all slots in order; unwrapping never fails on a complete packet |
| Refinement.PerformAll | tuic/src/model/mod.rs:201-289 | over any run the objects agree with the values in state and replies, and the task counter is the number of sessions |
| Runs.ReachableIsResident | tuic/src/model/mod.rs:402-462 | in every reachable table every buffer is resident |
| Runs.DeliveredIsComplete | tuic/src/model/mod.rs:485-492 | in every run a delivered packet has all its slots, at most 255, and its address |
| Runs.StepIsLocal | tuic/src/model/mod.rs:349-374 | the table behaves as one independent machine per packet |
| Runs.InsertionsCommute | tuic/src/model/mod.rs:268-282 | insertions of different packets commute in replies and in the whole table |
| Runs.SessionsAfter | tuic/src/model/mod.rs:212-265 | which sessions there are after each operation, with which id counter: opened empty with id 0, removed whatever they hold, all others untouched |
| Runs.OtherBuffersAfter | tuic/src/model/mod.rs:257-288 | what each operation does to buffers it hands no fragment to: gone on dissociation, gone on a pass at the timeout's age, else untouched |
| Runs.RefusedInsertion | tuic/src/model/mod.rs:349-370 | a refused fragment changes no received fragment and adds at most an empty buffer and an empty session |
| Runs.OthersDoNotMatter | tuic/src/model/mod.rs:268-282 | leaving out all operations on other packets changes neither the outcomes nor the buffer of a packet |
| Runs.CollectionIsTransparent | tuic/src/model/mod.rs:372-374 | leaving out all garbage collections changes nothing for a packet that none found expired |
| Runs.CollectionIsExact | tuic/src/model/mod.rs:284-288 | a pass keeps a buffer exactly when the clock at it is before its first fragment's time plus the timeout, and keeps every session and id counter |
| Runs.AgreeingHeadersNeverMiss | tuic/src/model/mod.rs:442 | when all headers of a packet agree on the total no slot is missed |
| Runs.MissIff | tuic/src/model/mod.rs:424-442 | in every run, exactly when a slot is missed |
| Runs.SlotMissHappens | tuic/src/model/mod.rs:442 | a run of two fragments that misses the slot vector |
| Runs.PacketIds | tuic/src/model/mod.rs:320-332 | the n-th send of one session lifetime gets id n modulo 65536 whatever else happens |
| Runs.IdsInWindowAreDistinct | tuic/src/model/mod.rs:326-331 | two sends of one lifetime share an id exactly when they are a multiple of 65536 sends apart |
| Integrity.DeliveredIsMadeOfContributors | tuic/src/model/mod.rs:349-374 | each slot of a delivered packet is filled by one accepted fragment of that packet and id, held since, and every such fragment is in it; the address is that of fragment 0 |
| Integrity.OneDeliveryPerFragment | tuic/src/model/mod.rs:365-367 | no accepted fragment goes into two deliveries |
| Integrity.DroppedIsNeverDelivered | tuic/src/model/mod.rs:257-288 | no fragment accepted before a dissociation or an expiring collection goes into a later delivery |
| Integrity.DuplicateIff | tuic/src/model/mod.rs:424-444 | in every run a fragment is refused as a duplicate exactly when its own header is in order and one of that packet and id was accepted earlier and is still held |
| Conservation.StepBalance | tuic/src/model/mod.rs:349-374 | one operation changes the number of fragments held by exactly what it accepts, delivers and drops |
| Conservation.FragmentsAreConserved | tuic/src/model/mod.rs:257-288 | over every run, fragments held before and accepted are delivered, dropped or still held |
| Conservation.NothingIsLost | tuic/src/model/mod.rs:201-289 | from an empty table every accepted fragment is delivered, dropped or still held |
| Delivery.DeliveredAtFirstCompletion | tuic/src/model/mod.rs:442-461 | with any order and repetitions, repeats are refused as duplicates and the packet is delivered whole at the first moment every id has appeared |
| Delivery.DeliveredExactlyOnce | tuic/src/model/mod.rs:349-370 | with each fragment once and nothing dropped halfway, all insertions but the last are pending, the last delivers the packet and no buffer remains |
| Relay.AcceptServerDatagram | tuic-quinn/src/lib.rs:338-364 | what the server makes of any byte string, including the unchecked slice, and the session it creates |
| Relay.AcceptClientDatagram | tuic-quinn/src/lib.rs:228-261 | the client refuses unknown associations and short payloads, and touches no state |
| Relay.Accept | tuic-quinn/src/lib.rs:558-567 | hands the fragment to the table and, when complete, gives the concatenated payload with address and association |
| Streams.AcceptServerStream | tuic-quinn/src/lib.rs:278-304 | what the server makes of a stream's header, the session it opens or removes, and the payload left unread |
| Streams.AcceptClientStream | tuic-quinn/src/lib.rs:175-197 | the client takes packets of known associations only, and touches no state |
| Streams.AcceptFromStream | tuic-quinn/src/lib.rs:550-567 | reads exactly the stated size from the stream and hands it over; a stream that ends too early changes nothing |
| Relay.TaskSizesMatch | tuic-quinn/src/lib.rs:351-356 | every fragment read by server or client, from a datagram or a stream, has as much data as its header says, so the size assertion of the reassembler holds |
| Relay.ReadAsDecoded | tuic-quinn/src/lib.rs:338-364 | server and client, datagram and stream, all read a fragment in the one same way |
| Commands.ServerTakesFromDatagram | tuic-quinn/src/lib.rs:338-364 | the server's answer to every command in a datagram: packets and heartbeats only |
| Commands.ServerTakesFromStream | tuic-quinn/src/lib.rs:278-304 | the server's answer to every command on a stream: authentications, packets and dissociations only |
| Commands.ClientTakes | tuic-quinn/src/lib.rs:175-261 | the client's answer to every command from either: packets of known associations only |
| Commands.DatagramEffect | tuic-quinn/src/lib.rs:351-354 | a packet opens exactly the session of its own association, even when its payload falls short; nothing else in a datagram does anything |
| Commands.StreamEffect | tuic-quinn/src/lib.rs:294-301 | likewise on a stream, where a dissociation removes exactly the session of its own association |
| Commands.UnreadableIsRefused | tuic-quinn/src/lib.rs:338-343 | bytes that are no command are refused by all with the reading error, and do nothing |
| Sending.PacketNative | tuic-quinn/src/lib.rs:62-82 | takes one packet id; from the lengths: sends the datagrams of all fragments in order, or all but the last before it indexes out of bounds, or none when the sizes are too small or datagrams are off |
| Sending.PacketQuic | tuic-quinn/src/lib.rs:85-100 | the same with a limit of 65535 bytes |
| Sending.SentInOrder | tuic-quinn/src/lib.rs:74-79 | what is sent is in the order of fragment ids, from the first on without a gap, and how much of it there is |
| EndToEnd.DatagramIsRead | tuic-quinn/src/lib.rs:338-364 | what the server reads of each datagram: the fragment put into it, as far as the address is read back and the size field goes, or a refusal |
| EndToEnd.StreamIsRead | tuic-quinn/src/lib.rs:278-296 | the same bytes on a stream give the same task, whatever follows |
| EndToEnd.ClientReads | tuic-quinn/src/lib.rs:228-261 | a client that knows the association reads the same from a datagram or a stream, any other refuses |
| EndToEnd.SendableDelivers | tuic-quinn/src/lib.rs:550-567 | whatever all leaves the sender is delivered once, in any order and interleaving: what receivers take from the fragments, the address as it is read, the association |
| EndToEnd.ReceivedUnchangedIff | tuic/src/model/packet.rs:268-301 | what is delivered is the original payload and address if and only if the packet is relayable |
| EndToEnd.RelayDeliversExactlyOnce | tuic-quinn/src/lib.rs:550-567 | datagrams or streams, any order, any interleaving with other operations: exactly the payload, address and association, once, and no buffer left |
| EndToEnd.FamilyIsDelivered | tuic/src/model/mod.rs:268-282 | any number of packets with distinct keys, fully interleaved with each other and anything of other keys, are each delivered once, unmixed, and unchanged if and only if relayable |
| EndToEnd.WindowIsDelivered | tuic/src/model/mod.rs:212-222 | packets of one session within 65536 sends have distinct ids and are each delivered once however they interleave with each other and other traffic |
| Safety.OnlyPacketIsHandedOver | tuic-quinn/src/lib.rs:550-567 | in any run, with losses, repetitions, dissociations and collections: whatever is handed over under a key all of whose fragments come from one packet is what that packet carries |
| Refusals.RefusedForItself | tuic/src/model/mod.rs:424-440 | in every run, a fragment whose own header is not in order gets exactly the error or panic of its first fault |
| Refusals.HandedFromHistory | tuic/src/model/mod.rs:442-461 | in every run, any other fragment misses the slots, is a duplicate, is accepted or completes the packet, exactly as the fragments still held say |
| Necessity.HandedOverIffSendable | tuic/src/model/packet.rs:230-301 | when all fragments leave, in order and without loss, something is handed over if and only if there are fragments and a readable address; then it is what the fragments carry |
| Necessity.OverlongHandsOverBeginning | tuic/src/model/packet.rs:242-246 | over 255 fragments: less than the payload is handed over as the whole, a proper beginning of it when sizes and domain fit, or nothing is sent |
| Necessity.ComesThroughIffRelayable | tuic/src/model/packet.rs:230-301 | a packet comes through unchanged, in order and without loss, if and only if its length is exact, it takes at most 255 fragments of at most 65535 bytes, and it has an address of which nothing is lost on the wire |
| ServerSessions.StepKeepsInv | tuic-server/src/connection/udp_session.rs:90-151 | every step of every task keeps all invariants of the table, the lock, the signals and the relay mode |
| ServerSessions.ReachableInv | tuic-server/src/connection/handle_task.rs:115-156 | in every interleaving each entry has its session's own key and a session that has not exited, handlers hold sessions of their own association, signals go out at most once, and sessions imply a relay mode |
| ServerSessions.LookupGivesOwn | tuic-server/src/connection/handle_task.rs:143-148 | looking up gives the session of the handler's own association, not exited, if there is an entry, and none otherwise |
| ServerSessions.CreationGivesOwn | tuic-server/src/connection/handle_task.rs:148-156 | a handler that found none takes the entry that came since or makes, enters and gets an open session of its own association |
| ServerSessions.PublishGivesOwn | tuic-server/src/connection/handle_task.rs:150-154 | in every interleaving the handler that enters a session gets that session |
| ServerSessions.UnassembledEnds | tuic-server/src/connection/handle_task.rs:117-132 | a handler whose packet is not put together ends without a session |
| ServerSessions.HandlersAfter | tuic-server/src/connection/handle_task.rs:101-175 | handlers keep their association and their session; which steps begin and end them |
| ServerSessions.SessionsAfter | tuic-server/src/connection/udp_session.rs:98-148 | sessions keep their association, are signalled only by timeout or dissociation, and only ever go from listening to exited |
| ServerSessions.TableAfter | tuic-server/src/connection/handle_task.rs:148-200 | an entry comes only by publishing and goes only by a dissociation or exit of its association |
| ServerSessions.LockExcludes | tuic-server/src/connection/handle_task.rs:148-200 | while the table is locked nobody else looks into it or changes it, and the holder makes one change |
| ServerSessions.ModeIsLastStored | tuic-server/src/connection/handle_task.rs:115 | the relay mode is that of the last packet that came in |
| ServerSessions.HandlerCanFinish | tuic-server/src/connection/handle_task.rs:142-175 | from any reachable state a packet handler can come to its end |
| ServerSessions.SignalledSessionCanGo | tuic-server/src/connection/udp_session.rs:98-148 | from any reachable state a signalled session can exit |
| ServerSessions.DissociationCanCome | tuic-server/src/connection/handle_task.rs:196-200 | from any reachable state any association can be dissociated |
| ServerSessions.PacketsAndTimeoutsCanCome | tuic-server/src/connection/udp_session.rs:98-112 | at any time a packet can come in and a listening session can time out |
| ServerSessions.DissociationReachesSession | tuic-server/src/connection/handle_task.rs:196-200 | the session a dissociation removes can always still be upgraded and ends with its one signal sent |
| ServerSessions.TimeoutEndsSession | tuic-server/src/connection/udp_session.rs:102-114 | a timeout leaves the session signalled, able to leave its loop and to remove its key |
| ServerSessions.ModeIsThereForSessions | tuic-server/src/connection/handle_task.rs:230 | unwrapping the relay mode never fails once a session exists |
| ServerSessions.OpenInTableIff | tuic-server/src/connection/udp_session.rs:142-147 | an open session in no one's hands is in the table if and only if it was never evicted |
| ServerSessions.EvictedIff | tuic-server/src/connection/udp_session.rs:142-147 | evicted means that the exit of another session's listener removed its entry by key |
| ServerSessions.SecondOpenSessionIsEvicted | tuic-server/src/connection/udp_session.rs:142-147 | of two open sessions of one association that are in no one's hands, one was evicted |
| ServerSessions.OpenSessionCanBeMissing | tuic-server/src/connection/udp_session.rs:142-147 | a concrete interleaving, for any association, in which an open session is missing from the table |

## Left out

- QUIC, TLS, sockets, name resolution and failures of the transport while sending: a datagram is a byte sequence, and a send that fails ends the loop with a prefix of the datagrams out.
- The asynchronous readers and writers: the same text as the synchronous ones.
- Authentication, heartbeats, TCP relaying, the REST interface, configuration and logging: nothing of the relay path depends on them.
- Exclusive use of one relay mode: the check and the store are separate steps in the program, so only "once set, never unset" is stated.
- Fragmentation.IntoFragments: a build without overflow checks wraps a subtraction that goes below zero instead of aborting; what the iterator does then is not modelled.
- Widths of `usize` and of the clock: lengths, offsets and times are natural numbers; 8-bit and 16-bit fields and casts are exact.
- Unwinding after a panic: the model says what the table holds then, not what becomes of the task.
- Delivery of UDP packets by a session's sockets, and the time between steps, in `ServerSessions`.
