// What a packet must be like to come through unchanged: even with no loss and no
// reordering, only the relayable packets do.
module Necessity {
  import opened Protocol
  import opened Runs
  import opened Delivery
  import opened Relay
  import opened EndToEnd
  import F = Fragmentation
  import I = Integrity

  /** The datagrams of the packet, read and handed over in order, and nothing else. */
  ghost predicate InOrder(ops: seq<Op>, p: F.Outgoing)
    requires p.Defined()
  {
    |ops| == p.Total() as int && forall k: u8 :: k < p.Total() ==> Carries(ops[k], p, k)
  }

  /** The last of them hands over the packet, with this payload and address. */
  ghost predicate HandsOver(ops: seq<Op>, whole: Handed) {
    ops != [] && ops[|ops| - 1].Insert? && HandedAt(map[], ops, |ops| - 1) == whole
  }

  /** The packet is handed over unchanged. */
  ghost predicate ComesThrough(ops: seq<Op>, p: F.Outgoing) {
    HandsOver(ops, Received(p.payload, p.addr, p.assocId))
  }

  // What is sent in order is handed over.

  function OrderedOps(p: F.Outgoing): seq<Op>
    requires p.Defined()
  {
    seq(p.Total(), k requires 0 <= k < p.Total() as int => Insert(p.FragHeader(k).AsRead(), p.Part(k), 0))
  }

  lemma OrderedIsInOrder(p: F.Outgoing, ops: seq<Op>)
    requires p.Defined() && p.addr.Readable()
    requires ops == OrderedOps(p)
    ensures InOrder(ops, p)
  {
    forall k: u8 | k < p.Total()
      ensures Carries(ops[k], p, k)
    {
      CarriesIff(ops[k], p, k);
    }
  }

  lemma InOrderAt(p: F.Outgoing, ops: seq<Op>, k: u8)
    requires p.Defined() && Sendable(p) && InOrder(ops, p) && k < p.Total()
    ensures Inserts(ops[k], KeyOfPacket(p)) && ops[k].header.fragId == k
    ensures FromWire(ops[k], p) && ArrivesIn(ops, p, k)
  {
    assert Carries(ops[k], p, k);
    CarriedIsGenuine(ops[k], p, k);
  }

  lemma InsertionsSpare(ops: seq<Op>, q: Incoming)
    requires forall j :: 0 <= j < |ops| ==> ops[j].Insert?
    ensures SparedThroughout(ops, q)
  {
  }

  lemma InOrderIsRelayed(p: F.Outgoing, ops: seq<Op>)
    requires p.Defined() && Sendable(p) && InOrder(ops, p)
    ensures RelayedIn(ops, p)
  {
    forall j | 0 <= j < |ops|
      ensures ops[j].Insert? && ops[j].header.fragId as int == j && FromWire(ops[j], p)
    {
      InOrderAt(p, ops, j);
    }
    forall k: u8 | k < p.Total()
      ensures ArrivesIn(ops, p, k)
    {
      InOrderAt(p, ops, k);
    }
    InsertionsSpare(ops, AsIncoming(p));
  }

  lemma LastHandsOver(ops: seq<Op>, k: Key, whole: Handed)
    requires ops != [] && Inserts(ops[|ops| - 1], k) && DeliveredOnce(map[], ops, k, whole)
    ensures HandsOver(ops, whole)
  {
    assert LastArrival(ops, k, |ops| - 1);
  }

  /** In order and without loss, what the fragments carry is handed over with the address as it is read. */
  lemma InOrderHandsOver(p: F.Outgoing, ops: seq<Op>)
    requires p.Defined() && Sendable(p) && InOrder(ops, p)
    ensures HandsOver(ops, AsReceived(p))
  {
    InOrderIsRelayed(p, ops);
    SendableDelivers(map[], ops, p);
    LastIsOfPacket(p, ops);
    LastHandsOver(ops, KeyOfPacket(p), AsReceived(p));
  }

  lemma LastIsOfPacket(p: F.Outgoing, ops: seq<Op>)
    requires p.Defined() && Sendable(p) && InOrder(ops, p)
    ensures ops != [] && Inserts(ops[|ops| - 1], KeyOfPacket(p))
  {
    InOrderAt(p, ops, p.Total() - 1);
  }

  /** More fragments than one byte can count: as many leave as the cast total says, less than the payload is handed over as if it were the whole, and nothing at all is sent when the cast total is 0. */
  lemma OverlongHandsOverBeginning(p: F.Outgoing, ops: seq<Op>)
    requires p.Defined() && p.Count() > 0xff
    requires !p.addr.NoAddress? && InOrder(ops, p)
    ensures p.StaysInBounds() && |p.Carried()| < |p.payload|
    ensures p.Total() == 0 ==> ops == []
    ensures p.Total() > 0 ==> HandsOver(ops, AsReceived(p))
    ensures p.addr.DomainFits() && F.Uncut(p, p.Total()) ==> p.Carried() == p.payload[..p.Start(p.Total())]
  {
    F.OverlongIsCut(p);
    F.CarriedIffUncut(p);
    if p.Total() > 0 {
      assert Carries(ops[0], p, 0);
      CarriesIff(ops[0], p, 0);
      InOrderHandsOver(p, ops);
    }
  }

  // Nothing else is.

  // The address handed over was read from the first fragment.
  lemma HandedAddress(ops: seq<Op>, p: F.Outgoing, whole: Handed)
    requires p.Defined() && InOrder(ops, p) && whole.Received? && HandsOver(ops, whole)
    ensures p.addr.Readable() && !p.addr.NoAddress?
  {
    var n := |ops| - 1;
    DeliveredIsComplete(map[], ops, n);
    var m := I.DeliveredSlot(ops, n, 0);
    var k: u8 := m;
    assert Carries(ops[k], p, k);
    CarriesIff(ops[k], p, k);
  }

  /** When all fragments leave, in order and without loss, something is handed over if and only if the packet is sendable; then it is what the fragments carry. */
  lemma HandedOverIffSendable(p: F.Outgoing, ops: seq<Op>)
    requires p.Defined() && p.StaysInBounds() && InOrder(ops, p)
    ensures (exists whole: Handed :: whole.Received? && HandsOver(ops, whole)) <==> Sendable(p)
    ensures Sendable(p) ==> HandsOver(ops, AsReceived(p))
  {
    F.StaysInBoundsIff(p);
    if whole: Handed :| whole.Received? && HandsOver(ops, whole) {
      HandedAddress(ops, p, whole);
    }
    if Sendable(p) {
      InOrderHandsOver(p, ops);
    }
  }

  lemma UnchangedOnlyIfRelayable(p: F.Outgoing, ops: seq<Op>)
    requires p.Defined() && p.StaysInBounds() && InOrder(ops, p) && ComesThrough(ops, p)
    ensures Relayable(p)
  {
    F.StaysInBoundsIff(p);
    HandedAddress(ops, p, Received(p.payload, p.addr, p.assocId));
    InOrderHandsOver(p, ops);
    ReceivedUnchangedIff(p);
  }

  lemma RelayableComesThrough(p: F.Outgoing) returns (ops: seq<Op>)
    requires p.Defined() && Relayable(p)
    ensures p.StaysInBounds() && InOrder(ops, p) && ComesThrough(ops, p)
  {
    F.StaysInBoundsIff(p);
    ops := OrderedOps(p);
    OrderedIsInOrder(p, ops);
    RelayableIsSendable(p);
    InOrderHandsOver(p, ops);
    ReceivedUnchangedIff(p);
  }

  /**
   * A packet for which fragmenting is defined at all comes through unchanged, with every
   * fragment in bounds, if and only if it is relayable: its length is exact, it takes at
   * most 255 fragments of at most 65535 bytes, and it has an address of which nothing is
   * lost on the wire.
   */
  lemma ComesThroughIffRelayable(p: F.Outgoing)
    requires p.Defined()
    ensures p.StaysInBounds() && (exists ops :: InOrder(ops, p) && ComesThrough(ops, p)) <==> Relayable(p)
  {
    if Relayable(p) {
      var ops := RelayableComesThrough(p);
    }
    if ops :| p.StaysInBounds() && InOrder(ops, p) && ComesThrough(ops, p) {
      UnchangedOnlyIfRelayable(p, ops);
    }
  }
}
