// What a receiver can ever be handed under the key of a packet: as long as every fragment
// with that key comes from that packet, nothing but what its fragments carry.
module Safety {
  import opened Wrappers
  import opened Protocol
  import opened Runs
  import opened Relay
  import opened EndToEnd
  import F = Fragmentation
  import I = Integrity
  import R = Reassembly

  /** Every insertion under the key of packet `p` hands over one of its fragments: any of them, in any order, any number of times or not at all. */
  ghost predicate OnlyFrom(ops: seq<Op>, p: F.Outgoing)
    requires p.Defined()
  {
    forall j :: 0 <= j < |ops| && Inserts(ops[j], KeyOfPacket(p)) ==> FromWire(ops[j], p)
  }

  // A fragment of the packet, as it is inserted.
  lemma InsertedFragment(ops: seq<Op>, p: F.Outgoing, j: nat)
    requires p.Defined() && OnlyFrom(ops, p)
    requires j < |ops| && Inserts(ops[j], KeyOfPacket(p))
    ensures ops[j].header.fragTotal == p.Total() && ops[j].header.fragId < p.Total()
    ensures p.AddressOf(ops[j].header.fragId).Readable()
    ensures ops[j].header.addr == p.AddressOf(ops[j].header.fragId).AsRead()
    ensures ops[j].data == p.Part(ops[j].header.fragId)
  {
    assert FromWire(ops[j], p);
    var i: u8 :| i < p.Total() && Carries(ops[j], p, i);
    CarriesIff(ops[j], p, i);
  }

  lemma DeliveredSlotCount(ops: seq<Op>, p: F.Outgoing, n: nat)
    requires p.Defined() && OnlyFrom(ops, p)
    requires n < |ops| && Inserts(ops[n], KeyOfPacket(p)) && I.DeliveredAt(ops, n)
    ensures |I.PacketAt(ops, n).slots| == p.Total() as int
  {
    forall j | 0 <= j < |ops| && Inserts(ops[j], KeyOfPacket(p))
      ensures ops[j].header.fragTotal == p.Total()
    {
      InsertedFragment(ops, p, j);
    }
    AgreedTotal(map[], ops, KeyOfPacket(p), p.Total(), n);
    I.EffectAt(ops, n);
  }

  lemma DeliveredSlotIsPart(ops: seq<Op>, p: F.Outgoing, n: nat, i: nat)
    requires p.Defined() && OnlyFrom(ops, p)
    requires n < |ops| && Inserts(ops[n], KeyOfPacket(p)) && I.DeliveredAt(ops, n)
    requires i < |I.PacketAt(ops, n).slots|
    ensures I.PacketAt(ops, n).slots[i] == Some(p.Part(i))
    ensures i == 0 ==> p.addr.Readable() && I.PacketAt(ops, n).addr == p.addr.AsRead()
  {
    var m := I.DeliveredSlot(ops, n, i);
    InsertedFragment(ops, p, m);
  }

  predicate MadeOf(packet: R.Assemblable, p: F.Outgoing)
    requires p.Defined()
  {
    && |packet.slots| == p.Total() as int
    && (forall i :: 0 <= i < |packet.slots| ==> packet.slots[i] == Some(p.Part(i)))
    && (packet.slots != [] ==> p.addr.Readable() && packet.addr == p.addr.AsRead())
  }

  lemma PacketIsMadeOf(ops: seq<Op>, p: F.Outgoing, n: nat)
    requires p.Defined() && OnlyFrom(ops, p)
    requires n < |ops| && Inserts(ops[n], KeyOfPacket(p)) && I.DeliveredAt(ops, n)
    ensures MadeOf(I.PacketAt(ops, n), p)
  {
    DeliveredSlotCount(ops, p, n);
    var packet := I.PacketAt(ops, n);
    forall i: nat | i < |packet.slots|
      ensures packet.slots[i] == Some(p.Part(i))
    {
      DeliveredSlotIsPart(ops, p, n, i);
    }
    if packet.slots != [] {
      DeliveredSlotIsPart(ops, p, n, 0);
    }
  }

  lemma HandedIsDelivered(ops: seq<Op>, n: nat)
    requires n < |ops| && ops[n].Insert? && HandedAt(map[], ops, n).Received?
    ensures I.DeliveredAt(ops, n) && R.Complete(I.PacketAt(ops, n))
    ensures I.PacketAt(ops, n).assocId == ops[n].header.assocId
    ensures HandedAt(map[], ops, n) == HandOver(R.Delivered(I.PacketAt(ops, n)))
  {
    I.DeliveredIsMadeOfContributors(ops, n);
  }

  lemma PartsAreReceived(packet: R.Assemblable, p: F.Outgoing)
    requires p.Defined() && R.Complete(packet) && MadeOf(packet, p) && packet.assocId == p.assocId
    ensures HandOver(R.Delivered(packet)) == AsReceived(p)
    ensures p.Total() > 0 && p.addr.Readable() && !p.addr.NoAddress?
  {
    assert R.Parts(packet.slots) == p.Parts(p.Total());
  }

  /**
   * Safety of the relay, in any run that starts with an empty table, with losses,
   * repetitions, dissociations and collections at any time: what is handed over under the
   * key of a packet is exactly what its fragments carry, its address as it is read and its
   * association, and is never handed over unless the packet is one of which something is relayed.
   */
  lemma OnlyPacketIsHandedOver(ops: seq<Op>, p: F.Outgoing, n: nat)
    requires p.Defined() && OnlyFrom(ops, p)
    requires n < |ops| && Inserts(ops[n], KeyOfPacket(p))
    requires HandedAt(map[], ops, n).Received?
    ensures HandedAt(map[], ops, n) == AsReceived(p)
    ensures p.Total() > 0 && p.addr.Readable() && !p.addr.NoAddress?
  {
    HandedIsDelivered(ops, n);
    PacketIsMadeOf(ops, p, n);
    PartsAreReceived(I.PacketAt(ops, n), p);
  }
}
