// From the sender's payload to the receiver's: fragmenting, encoding, any delivery order in
// the middle of other traffic, decoding and reassembling give back the packet.
module EndToEnd {
  import opened Wrappers
  import opened Protocol
  import opened Marshal
  import opened Unmarshal
  import opened Codec
  import opened Runs
  import opened Delivery
  import opened Relay
  import F = Fragmentation
  import R = Reassembly

  /** The packets that can be relayed as they are, told before anything is sent. */
  predicate Relayable(p: F.Outgoing)
    requires p.Defined()
  {
    && p.Exact()
    && p.Count() <= 0xff
    && F.LargestSlice(p) <= 0xffff
    && !p.addr.NoAddress?
    && p.addr.Encodable()
  }

  /** The packets of which something is relayed: all fragments leave, there are any, and the first says where to. */
  predicate Sendable(p: F.Outgoing)
    requires p.Defined()
  {
    && (p.Exact() || p.Count() > 0xff)
    && p.Total() > 0
    && !p.addr.NoAddress?
    && p.addr.Readable()
  }

  function KeyOfPacket(p: F.Outgoing): Key {
    Key(p.assocId, p.pktId)
  }

  /** The packet as the receiver sees it. */
  function AsIncoming(p: F.Outgoing): Incoming
    requires p.Defined()
  {
    Incoming(KeyOfPacket(p), p.addr.AsRead(), p.Parts(p.Total()))
  }

  function AsReceived(p: F.Outgoing): Handed
    requires p.Defined()
  {
    Received(p.Carried(), p.addr.AsRead(), p.assocId)
  }

  /** A sendable packet is received with its own payload and address, if and only if it is relayable. */
  lemma ReceivedUnchangedIff(p: F.Outgoing)
    requires p.Defined() && Sendable(p)
    ensures AsReceived(p) == Received(p.payload, p.addr, p.assocId) <==> Relayable(p)
  {
    F.StaysInBoundsIff(p);
    F.CarriesPayloadIff(p);
  }

  lemma RelayableIsSendable(p: F.Outgoing)
    requires p.Defined() && Relayable(p)
    ensures Sendable(p)
  {
  }

  // Reading fragments.

  // A receiver takes as much of what follows the header as the size field covers.
  lemma PartRead(p: F.Outgoing, k: u8)
    requires p.Defined()
    ensures var h := p.FragHeader(k).AsRead();
            var rest := p.AddressOf(k).Spill() + p.Slice(k);
            h.size as int <= |rest| && rest[..h.size] == p.Part(k)
  {
    F.SizeField(p, k);
    F.PartInRest(p, k);
    SizeIsRead(p.FragHeader(k));
  }

  lemma SizeIsRead(h: PacketHeader)
    ensures h.AsRead().size == h.size
  {
  }

  // What is read of a fragment whose address is readable, and where its part is found in the rest.
  lemma DatagramDecoded(p: F.Outgoing, k: u8)
    requires p.Defined() && p.AddressOf(k).Readable()
    ensures var h := p.FragHeader(k).AsRead();
            var rest := p.AddressOf(k).Spill() + p.Slice(k);
            && DecodeHeader(p.Datagram(k)) == Got(Packet(h), rest)
            && h.size as int <= |rest| && rest[..h.size] == p.Part(k)
  {
    PartRead(p, k);
    ReadsAsRead(Packet(p.FragHeader(k)), p.Slice(k));
  }

  lemma DatagramFails(p: F.Outgoing, k: u8)
    requires p.Defined() && !p.AddressOf(k).Readable()
    ensures DecodeHeader(p.Datagram(k)) == Failed(AddressParse)
  {
    ReadsAsRead(Packet(p.FragHeader(k)), p.Slice(k));
  }

  // From what is decoded to what each receiver makes of it.
  lemma DecodedIsRead(t: R.Table, bytes: Bytes, h: PacketHeader, rest: Bytes)
    requires DecodeHeader(bytes) == Got(Packet(h), rest) && h.size as int <= |rest|
    ensures ServerDatagram(bytes) == ServerStream(bytes) == Ok(PacketTask(h, rest[..h.size]))
    ensures ClientDatagram(t, bytes) == ClientStream(t, bytes) ==
            if h.assocId in t then Ok(PacketTask(h, rest[..h.size])) else Err(InvalidUdpSession(h.assocId, h.pktId))
  {
  }

  lemma FailureIsRead(t: R.Table, bytes: Bytes, e: UnmarshalError)
    requires DecodeHeader(bytes) == Failed(e)
    ensures ServerDatagram(bytes) == ServerStream(bytes) == Err(BadHeader(e))
    ensures ClientDatagram(t, bytes) == ClientStream(t, bytes) == Err(BadHeader(e))
  {
  }

  /** The server reads every datagram as the fragment put into it, as far as the address is read back and the size field goes, unless it cannot read the address. */
  lemma DatagramIsRead(p: F.Outgoing, k: u8)
    requires p.Defined()
    ensures ServerDatagram(p.Datagram(k)) ==
            if p.AddressOf(k).Readable() then Ok(PacketTask(p.FragHeader(k).AsRead(), p.Part(k)))
            else Err(BadHeader(AddressParse))
  {
    if p.AddressOf(k).Readable() {
      DatagramDecoded(p, k);
      DecodedIsRead(map[], p.Datagram(k), p.FragHeader(k).AsRead(), p.AddressOf(k).Spill() + p.Slice(k));
    } else {
      DatagramFails(p, k);
      FailureIsRead(map[], p.Datagram(k), AddressParse);
    }
  }

  lemma SameFront(s: Bytes, more: Bytes, n: nat)
    requires n <= |s|
    ensures (s + more)[..n] == s[..n]
  {
  }

  // More bytes behind a header and what follows it.
  lemma MoreDecoded(h: Header, slice: Bytes, more: Bytes)
    ensures DecodeHeader(EncodeHeader(h) + slice + more) ==
            if h.Readable() then Got(h.AsRead(), h.Spill() + slice + more) else Failed(AddressParse)
  {
    AppendedLast(EncodeHeader(h), slice, more);
    AppendedLast(h.Spill(), slice, more);
    ReadsAsRead(h, slice + more);
  }

  lemma StreamDecoded(p: F.Outgoing, k: u8, more: Bytes)
    requires p.Defined() && p.AddressOf(k).Readable()
    ensures var h := p.FragHeader(k).AsRead();
            var rest := p.AddressOf(k).Spill() + p.Slice(k);
            && DecodeHeader(p.Datagram(k) + more) == Got(Packet(h), rest + more)
            && h.size as int <= |rest| && (rest + more)[..h.size] == p.Part(k)
  {
    PartRead(p, k);
    SameFront(p.AddressOf(k).Spill() + p.Slice(k), more, p.FragHeader(k).size);
    MoreDecoded(Packet(p.FragHeader(k)), p.Slice(k), more);
  }

  lemma StreamFails(p: F.Outgoing, k: u8, more: Bytes)
    requires p.Defined() && !p.AddressOf(k).Readable()
    ensures DecodeHeader(p.Datagram(k) + more) == Failed(AddressParse)
  {
    MoreDecoded(Packet(p.FragHeader(k)), p.Slice(k), more);
  }

  /** The same bytes on a stream are read the same way, also with more bytes behind them. */
  lemma StreamIsRead(p: F.Outgoing, k: u8, more: Bytes)
    requires p.Defined()
    ensures ServerStream(p.Datagram(k) + more) ==
            if p.AddressOf(k).Readable() then Ok(PacketTask(p.FragHeader(k).AsRead(), p.Part(k)))
            else Err(BadHeader(AddressParse))
  {
    var bytes := p.Datagram(k) + more;
    if p.AddressOf(k).Readable() {
      StreamDecoded(p, k, more);
      DecodedIsRead(map[], bytes, p.FragHeader(k).AsRead(), p.AddressOf(k).Spill() + p.Slice(k) + more);
    } else {
      StreamFails(p, k, more);
      FailureIsRead(map[], bytes, AddressParse);
    }
  }

  /** A client that knows the association reads them the same way, and any other refuses them. */
  lemma ClientReads(t: R.Table, p: F.Outgoing, k: u8)
    requires p.Defined()
    ensures ClientDatagram(t, p.Datagram(k)) == ClientStream(t, p.Datagram(k)) ==
            if !p.AddressOf(k).Readable() then Err(BadHeader(AddressParse))
            else if p.assocId in t then Ok(PacketTask(p.FragHeader(k).AsRead(), p.Part(k)))
            else Err(InvalidUdpSession(p.assocId, p.pktId))
  {
    if p.AddressOf(k).Readable() {
      DatagramDecoded(p, k);
      DecodedIsRead(t, p.Datagram(k), p.FragHeader(k).AsRead(), p.AddressOf(k).Spill() + p.Slice(k));
    } else {
      DatagramFails(p, k);
      FailureIsRead(t, p.Datagram(k), AddressParse);
    }
  }

  /** Operation `op` hands over what some receiver reads from fragment `k`. */
  ghost predicate Carries(op: Op, p: F.Outgoing, k: u8)
    requires p.Defined()
  {
    op.Insert? && ReadAs(p.Datagram(k), op.header, op.data)
  }

  lemma DecodedIsReadAs(bytes: Bytes, h: PacketHeader, rest: Bytes, h': PacketHeader, data: Bytes)
    requires DecodeHeader(bytes) == Got(Packet(h), rest) && h.size as int <= |rest|
    ensures ReadAs(bytes, h', data) <==> h' == h && data == rest[..h.size]
  {
    ReadAsDecoded(bytes, h', data);
  }

  // There is only one way of reading a fragment, if any.
  lemma CarriesIff(op: Op, p: F.Outgoing, k: u8)
    requires p.Defined()
    ensures Carries(op, p, k) <==>
            && op.Insert? && p.AddressOf(k).Readable()
            && op.header == p.FragHeader(k).AsRead() && op.data == p.Part(k)
  {
    if op.Insert? {
      if p.AddressOf(k).Readable() {
        DatagramDecoded(p, k);
        var rest := p.AddressOf(k).Spill() + p.Slice(k);
        DecodedIsReadAs(p.Datagram(k), p.FragHeader(k).AsRead(), rest, op.header, op.data);
      } else {
        DatagramFails(p, k);
        ReadAsDecoded(p.Datagram(k), op.header, op.data);
      }
    }
  }

  lemma SendableIsWellFormed(p: F.Outgoing)
    requires p.Defined() && Sendable(p)
    ensures AsIncoming(p).WellFormed()
  {
  }

  lemma HeaderAsRead(p: F.Outgoing, k: u8)
    requires p.Defined() && AsIncoming(p).WellFormed() && k < p.Total()
    ensures AsIncoming(p).FragHeader(k) == p.FragHeader(k).AsRead()
    ensures AsIncoming(p).parts[k] == p.Part(k)
  {
  }

  /** The whole packet, handed over, is what its fragments carry, with its address and association. */
  lemma WholeIsReceived(p: F.Outgoing)
    requires p.Defined() && Sendable(p)
    ensures R.Complete(AsIncoming(p).Whole())
    ensures HandOver(R.Delivered(AsIncoming(p).Whole())) == AsReceived(p)
  {
    assert R.Parts(AsIncoming(p).Whole().slots) == p.Parts(p.Total());
  }

  // One packet.

  ghost predicate FromWire(op: Op, p: F.Outgoing)
    requires p.Defined()
  {
    exists i: u8 :: i < p.Total() && Carries(op, p, i)
  }

  ghost predicate ArrivesIn(ops: seq<Op>, p: F.Outgoing, i: u8)
    requires p.Defined()
  {
    exists j :: 0 <= j < |ops| && Carries(ops[j], p, i)
  }

  /** What the run does for packet `p`: everything about it is one of its fragments, each once, and nothing drops it halfway. */
  ghost predicate RelayedIn(ops: seq<Op>, p: F.Outgoing)
    requires p.Defined()
  {
    var k := KeyOfPacket(p);
    && (forall j :: 0 <= j < |ops| && Inserts(ops[j], k) ==> FromWire(ops[j], p))
    && (forall i: u8 :: i < p.Total() ==> ArrivesIn(ops, p, i))
    && (forall j1, j2 :: 0 <= j1 < j2 < |ops| && Inserts(ops[j1], k) && Inserts(ops[j2], k) ==>
          ops[j1].header.fragId != ops[j2].header.fragId)
    && SparedThroughout(ops, AsIncoming(p))
  }

  /** Packet `k` is delivered exactly once, at its last fragment, as `whole`; every other fragment is pending; nothing remains. */
  ghost predicate DeliveredOnce(t: R.Table, ops: seq<Op>, k: Key, whole: Handed)
    requires R.ResidentTable(t)
  {
    && (exists n :: LastArrival(ops, k, n))
    && (forall n :: 0 <= n < |ops| && Inserts(ops[n], k) ==>
          HandedAt(t, ops, n) == if LastArrival(ops, k, n) then whole else NotYet)
    && View(Run(t, ops), k).None?
  }

  function HandedAt(t: R.Table, ops: seq<Op>, n: nat): Handed
    requires R.ResidentTable(t) && n < |ops| && ops[n].Insert?
  {
    var out := ReplyAt(t, ops, n).outcome;
    DeliveredIsCompleteIfAny(t, ops, n);
    HandOver(out)
  }

  lemma DeliveredIsCompleteIfAny(t: R.Table, ops: seq<Op>, n: nat)
    requires R.ResidentTable(t) && n < |ops| && ops[n].Insert?
    ensures var out := ReplyAt(t, ops, n).outcome; out.Delivered? ==> R.Complete(out.packet)
  {
    if ReplyAt(t, ops, n).outcome.Delivered? {
      DeliveredIsComplete(t, ops, n);
    }
  }

  lemma CarriedIsGenuine(op: Op, p: F.Outgoing, i: u8)
    requires p.Defined() && Sendable(p) && i < p.Total() && Carries(op, p, i)
    ensures AsIncoming(p).WellFormed() && AsIncoming(p).Arrives(op, i)
    ensures op.header.fragId == i && Inserts(op, KeyOfPacket(p))
  {
    CarriesIff(op, p, i);
    SendableIsWellFormed(p);
    HeaderAsRead(p, i);
  }

  lemma RelayedIsGenuine(ops: seq<Op>, p: F.Outgoing, j: nat)
    requires p.Defined() && Sendable(p) && RelayedIn(ops, p) && j < |ops|
    ensures AsIncoming(p).WellFormed() && AsIncoming(p).Genuine(ops[j])
  {
    SendableIsWellFormed(p);
    if Inserts(ops[j], KeyOfPacket(p)) {
      assert FromWire(ops[j], p);
      var i: u8 :| i < p.Total() && Carries(ops[j], p, i);
      CarriedIsGenuine(ops[j], p, i);
    }
  }

  lemma RelayedIsSeen(ops: seq<Op>, p: F.Outgoing, i: u8)
    requires p.Defined() && Sendable(p) && RelayedIn(ops, p) && i < p.Total()
    ensures i as nat in Seen(ops, KeyOfPacket(p))
  {
    assert ArrivesIn(ops, p, i);
    var j :| 0 <= j < |ops| && Carries(ops[j], p, i);
    CarriedIsGenuine(ops[j], p, i);
    SeenIff(ops, KeyOfPacket(p), i);
  }

  lemma RelayedIsUndisturbed(ops: seq<Op>, p: F.Outgoing)
    requires p.Defined() && Sendable(p) && RelayedIn(ops, p)
    ensures AsIncoming(p).WellFormed()
    ensures forall j :: 0 <= j < |ops| ==> AsIncoming(p).Genuine(ops[j])
    ensures EachOnce(ops, AsIncoming(p)) && SparedThroughout(ops, AsIncoming(p))
  {
    var q := AsIncoming(p);
    SendableIsWellFormed(p);
    forall j | 0 <= j < |ops|
      ensures q.Genuine(ops[j])
    {
      RelayedIsGenuine(ops, p, j);
    }
    forall i | i in q.All()
      ensures i in Seen(ops, q.key)
    {
      RelayedIsSeen(ops, p, i);
    }
  }

  /**
   * Whatever leaves the sender, arriving in any order and in the middle of any other
   * operation, is delivered once: what the fragments carry, the address as it is read and
   * the association; and no buffer is left behind.
   */
  lemma SendableDelivers(t: R.Table, ops: seq<Op>, p: F.Outgoing)
    requires R.ResidentTable(t)
    requires p.Defined() && Sendable(p) && RelayedIn(ops, p)
    requires View(t, KeyOfPacket(p)).None?
    ensures DeliveredOnce(t, ops, KeyOfPacket(p), AsReceived(p))
  {
    RelayedIsUndisturbed(ops, p);
    DeliveredExactlyOnce(t, ops, AsIncoming(p));
    WholeIsReceived(p);
    HandedInOrder(t, ops, AsIncoming(p));
  }

  // What each insertion of the packet hands over, from its reply.
  lemma HandedInOrder(t: R.Table, ops: seq<Op>, q: Incoming)
    requires R.ResidentTable(t) && R.Complete(q.Whole())
    requires forall n :: 0 <= n < |ops| && Inserts(ops[n], q.key) ==>
               ReplyAt(t, ops, n) == Inserted(if LastArrival(ops, q.key, n) then R.Delivered(q.Whole()) else R.Pending)
    ensures forall n :: 0 <= n < |ops| && Inserts(ops[n], q.key) ==>
              HandedAt(t, ops, n) == if LastArrival(ops, q.key, n) then HandOver(R.Delivered(q.Whole())) else NotYet
  {
  }

  /** The round trip over the wire: a relayable packet delivers exactly the original payload, address and association. */
  lemma RelayDeliversExactlyOnce(t: R.Table, ops: seq<Op>, p: F.Outgoing)
    requires R.ResidentTable(t)
    requires p.Defined() && Relayable(p) && RelayedIn(ops, p)
    requires View(t, KeyOfPacket(p)).None?
    ensures DeliveredOnce(t, ops, KeyOfPacket(p), Received(p.payload, p.addr, p.assocId))
  {
    RelayableIsSendable(p);
    SendableDelivers(t, ops, p);
    ReceivedUnchangedIff(p);
  }

  // Many packets.

  /**
   * `ops` holds all fragments of all packets, each once, in any order and in the middle of
   * any other operation that neither inserts under the key of one of them nor drops one,
   * by dissociation or collection, when some of its fragments have arrived but not all.
   */
  ghost predicate Interleaves(ops: seq<Op>, packets: seq<F.Outgoing>)
    requires forall i :: 0 <= i < |packets| ==> packets[i].Defined()
  {
    && (forall i, j :: 0 <= i < |packets| && 0 <= j < |ops| && Inserts(ops[j], KeyOfPacket(packets[i])) ==>
          FromFamily(ops[j], packets))
    && (forall i, k: u8 :: 0 <= i < |packets| && k < packets[i].Total() ==> ArrivesIn(ops, packets[i], k))
    && (forall i, k: u8, j1, j2 :: 0 <= i < |packets| && k < packets[i].Total() && 0 <= j1 < j2 < |ops| ==>
          !(Carries(ops[j1], packets[i], k) && Carries(ops[j2], packets[i], k)))
    && (forall i :: 0 <= i < |packets| ==> SparedThroughout(ops, AsIncoming(packets[i])))
  }

  ghost predicate FromFamily(op: Op, packets: seq<F.Outgoing>)
    requires forall i :: 0 <= i < |packets| ==> packets[i].Defined()
  {
    exists i, k: u8 :: 0 <= i < |packets| && k < packets[i].Total() && Carries(op, packets[i], k)
  }

  ghost predicate DistinctKeys(packets: seq<F.Outgoing>) {
    forall i1, i2 :: 0 <= i1 < i2 < |packets| ==> KeyOfPacket(packets[i1]) != KeyOfPacket(packets[i2])
  }

  // An insertion under the key of a packet hands over a fragment of that very packet.
  lemma OwnFragment(ops: seq<Op>, packets: seq<F.Outgoing>, i: nat, j: nat)
    requires forall i :: 0 <= i < |packets| ==> packets[i].Defined() && Sendable(packets[i])
    requires DistinctKeys(packets) && Interleaves(ops, packets)
    requires i < |packets| && j < |ops| && Inserts(ops[j], KeyOfPacket(packets[i]))
    ensures ops[j].header.fragId < packets[i].Total() && Carries(ops[j], packets[i], ops[j].header.fragId)
  {
    assert FromFamily(ops[j], packets);
    var i', k: u8 :| 0 <= i' < |packets| && k < packets[i'].Total() && Carries(ops[j], packets[i'], k);
    CarriedIsGenuine(ops[j], packets[i'], k);
    assert i' == i;
  }

  lemma InterleavedPacketIsRelayed(ops: seq<Op>, packets: seq<F.Outgoing>, i: nat)
    requires forall i :: 0 <= i < |packets| ==> packets[i].Defined() && Sendable(packets[i])
    requires DistinctKeys(packets) && Interleaves(ops, packets) && i < |packets|
    ensures RelayedIn(ops, packets[i])
  {
    var p := packets[i];
    forall j | 0 <= j < |ops| && Inserts(ops[j], KeyOfPacket(p))
      ensures ops[j].header.fragId < p.Total() && Carries(ops[j], p, ops[j].header.fragId)
    {
      OwnFragment(ops, packets, i, j);
    }
    forall j1, j2 | 0 <= j1 < j2 < |ops| && Inserts(ops[j1], KeyOfPacket(p)) && Inserts(ops[j2], KeyOfPacket(p))
      ensures ops[j1].header.fragId != ops[j2].header.fragId
    {
      var k := ops[j1].header.fragId;
      assert Carries(ops[j1], packets[i], k);
    }
  }

  /**
   * Any number of packets with distinct ids, fully interleaved with each other and with the
   * fragments of any other packet, are each delivered exactly once, unmixed; unchanged are
   * exactly the relayable ones.
   */
  lemma FamilyIsDelivered(t: R.Table, ops: seq<Op>, packets: seq<F.Outgoing>)
    requires R.ResidentTable(t)
    requires forall i :: 0 <= i < |packets| ==> packets[i].Defined() && Sendable(packets[i])
    requires DistinctKeys(packets) && Interleaves(ops, packets)
    requires forall i :: 0 <= i < |packets| ==> View(t, KeyOfPacket(packets[i])).None?
    ensures forall i :: 0 <= i < |packets| ==>
              var p := packets[i];
              && DeliveredOnce(t, ops, KeyOfPacket(p), AsReceived(p))
              && (AsReceived(p) == Received(p.payload, p.addr, p.assocId) <==> Relayable(p))
  {
    forall i | 0 <= i < |packets|
      ensures DeliveredOnce(t, ops, KeyOfPacket(packets[i]), AsReceived(packets[i]))
    {
      InterleavedPacketIsRelayed(ops, packets, i);
      SendableDelivers(t, ops, packets[i]);
    }
    forall p | p in packets
      ensures AsReceived(p) == Received(p.payload, p.addr, p.assocId) <==> Relayable(p)
    {
      ReceivedUnchangedIff(p);
    }
  }

  /** `packets` were sent by the operations `sent` of the sender's run, all in one lifetime of session `a`. */
  ghost predicate SentBy(packets: seq<F.Outgoing>, from: R.Table, run: seq<Op>, a: u16, sent: seq<nat>) {
    && |sent| == |packets|
    && a !in from && Op.Dissociate(a) !in run
    && (forall i :: 0 <= i < |sent| ==>
          && sent[i] < |run| && run[sent[i]] == SendPacket(a)
          && packets[i].assocId == a && ReplyAt(from, run, sent[i]) == Sent(packets[i].pktId))
    && (forall i1, i2 :: 0 <= i1 < i2 < |sent| ==> sent[i1] < sent[i2])
  }

  /** No two of the packets are 65536 or more sends apart. */
  ghost predicate InWindow(run: seq<Op>, a: u16, sent: seq<nat>)
    requires forall i :: 0 <= i < |sent| ==> sent[i] <= |run|
  {
    forall i1, i2 :: 0 <= i1 < i2 < |sent| ==>
      Sends(run[..sent[i2]], a) - Sends(run[..sent[i1]], a) < 0x1_0000
  }

  lemma WindowKeysDiffer(packets: seq<F.Outgoing>, from: R.Table, run: seq<Op>, a: u16, sent: seq<nat>, i1: nat, i2: nat)
    requires SentBy(packets, from, run, a, sent) && InWindow(run, a, sent)
    requires i1 < i2 < |packets|
    ensures KeyOfPacket(packets[i1]) != KeyOfPacket(packets[i2])
  {
    assert forall op :: op in run[..sent[i2]] ==> op in run;
    IdsInWindowAreDistinct(from, run, a, sent[i1], sent[i2]);
  }

  /**
   * Packets of one session sent within a window of 65536 sends get distinct ids, so that
   * they may be fully interleaved on the wire and are still each delivered exactly once,
   * unchanged if and only if they are relayable.
   */
  lemma WindowIsDelivered(from: R.Table, run: seq<Op>, a: u16, sent: seq<nat>,
                          t: R.Table, ops: seq<Op>, packets: seq<F.Outgoing>)
    requires SentBy(packets, from, run, a, sent) && InWindow(run, a, sent)
    requires R.ResidentTable(t)
    requires forall i :: 0 <= i < |packets| ==> packets[i].Defined() && Sendable(packets[i])
    requires forall i :: 0 <= i < |packets| ==> View(t, KeyOfPacket(packets[i])).None?
    requires Interleaves(ops, packets)
    ensures forall i :: 0 <= i < |packets| ==>
              var p := packets[i];
              && DeliveredOnce(t, ops, KeyOfPacket(p), AsReceived(p))
              && (AsReceived(p) == Received(p.payload, p.addr, p.assocId) <==> Relayable(p))
  {
    forall i1, i2 | 0 <= i1 < i2 < |packets|
      ensures KeyOfPacket(packets[i1]) != KeyOfPacket(packets[i2])
    {
      WindowKeysDiffer(packets, from, run, a, sent, i1, i2);
    }
    FamilyIsDelivered(t, ops, packets);
  }
}
