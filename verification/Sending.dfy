// Sending a packet: the fragments leave one after the other, each behind its header, as
// datagrams or each on a stream of its own.
module Sending {
  import opened Wrappers
  import opened Protocol
  import opened Marshal
  import F = Fragmentation
  import R = Reassembly
  import U = UdpSessions

  // Datagrams switched off; a size below the header, or with no room beside it; an index past the payload.
  datatype SendError = Disabled | SizeTooSmall | FragmentOutOfBounds

  /** What is sent for a packet: in place `k` the datagram of fragment `k`. */
  function Datagrams(p: F.Outgoing, n: nat): (dgs: seq<Bytes>)
    requires p.Defined() && n <= p.Total() as int
    ensures |dgs| == n
    ensures forall k: u8 :: k as int < n ==> dgs[k] == p.Datagram(k)
  {
    seq(n, k requires 0 <= k < n => p.Datagram(k))
  }

  /**
   * What sending packet `p` comes to, told from its lengths: everything is sent, or
   * everything but the last fragment before that one indexes past the payload.
   */
  predicate SentAs(p: F.Outgoing, r: Result<u16, SendError>, sent: seq<Bytes>) {
    if !p.Defined() then r == Err(SizeTooSmall) && sent == []
    else if p.Exact() || p.Count() > 0xff then r == Ok(p.pktId) && sent == Datagrams(p, p.Total())
    else r == Err(FragmentOutOfBounds) && sent == Datagrams(p, p.Total() - 1)
  }

  /** Whatever is sent is sent in the order of the fragment ids, from the first on and without a gap. */
  lemma SentInOrder(p: F.Outgoing, r: Result<u16, SendError>, sent: seq<Bytes>)
    requires SentAs(p, r, sent)
    ensures sent != [] ==> p.Defined() && |sent| <= p.Total() as int
    ensures forall k :: 0 <= k < |sent| ==> sent[k] == p.Datagram(k)
    ensures r.Ok? ==> p.Defined() && r.value == p.pktId && |sent| == p.Total() as int
    ensures r.Err? && p.Defined() ==> |sent| == p.Total() as int - 1
  {
  }

  /** Sends a packet as datagrams. */
  method PacketNative(sessions: U.UdpSessions, payload: Bytes, addr: Address, assocId: u16,
                      maxDatagramSize: Option<nat>)
    returns (r: Result<u16, SendError>, sent: seq<Bytes>)
    requires sessions.Valid()
    modifies sessions, sessions.Repr
    ensures sessions.Valid() && fresh(sessions.Repr - old(sessions.Repr))
    ensures maxDatagramSize.None? ==> r == Err(Disabled) && sent == [] && sessions.view == old(sessions.view)
    ensures maxDatagramSize.Some? ==>
              var (t, pktId) := R.Send(old(sessions.view), assocId);
              && sessions.view == t
              && SentAs(F.Outgoing(assocId, pktId, addr, maxDatagramSize.value, payload), r, sent)
  {
    if maxDatagramSize.None? {
      return Err(Disabled), [];
    }
    var pktId := sessions.SendPacket(assocId);
    r, sent := SendPacket(F.Outgoing(assocId, pktId, addr, maxDatagramSize.value, payload));
  }

  /** Sends a packet on streams, one for each fragment. */
  method PacketQuic(sessions: U.UdpSessions, payload: Bytes, addr: Address, assocId: u16)
    returns (r: Result<u16, SendError>, sent: seq<Bytes>)
    requires sessions.Valid()
    modifies sessions, sessions.Repr
    ensures sessions.Valid() && fresh(sessions.Repr - old(sessions.Repr))
    ensures var (t, pktId) := R.Send(old(sessions.view), assocId);
            && sessions.view == t
            && SentAs(F.Outgoing(assocId, pktId, addr, 0xffff, payload), r, sent)
  {
    var pktId := sessions.SendPacket(assocId);
    r, sent := SendPacket(F.Outgoing(assocId, pktId, addr, 0xffff, payload));
  }

  // The iteration ends as the lengths say.
  lemma SentFromLengths(p: F.Outgoing, r: Result<u16, SendError>, sent: seq<Bytes>)
    requires p.Defined()
    requires r == if p.StaysInBounds() then Ok(p.pktId) else Err(FragmentOutOfBounds)
    requires p.StaysInBounds() ==> sent == Datagrams(p, p.Total())
    requires !p.StaysInBounds() ==> p.Total() > 0 && sent == Datagrams(p, p.Total() - 1)
    ensures SentAs(p, r, sent)
  {
    F.StaysInBoundsIff(p);
  }

  method SendPacket(p: F.Outgoing) returns (r: Result<u16, SendError>, sent: seq<Bytes>)
    ensures SentAs(p, r, sent)
  {
    var fragments := F.IntoFragments(p);
    if fragments.None? {
      return Err(SizeTooSmall), [];
    }
    var ok;
    ok, sent := SendFragments(fragments.value);
    r := if ok then Ok(p.pktId) else Err(FragmentOutOfBounds);
    SentFromLengths(p, r, sent);
  }

  // Encodes one fragment behind its header.
  method FragmentDatagram(header: PacketHeader, data: Bytes) returns (dg: Bytes)
    ensures dg == EncodeHeader(Packet(header)) + data
  {
    var buf := new BufMut();
    WriteHeader(Packet(header), buf);
    buf.PutSlice(data);
    dg := buf.data;
  }

  lemma OneMoreSent(p: F.Outgoing, id: u8)
    requires p.Defined() && id < p.Total() && p.StartsInside(id) && p.Start(id) < |p.payload|
    ensures p.StartsInside(id + 1) && Datagrams(p, id + 1) == Datagrams(p, id) + [p.Datagram(id)]
  {
  }

  // One step of the iterator, with the fragment encoded and sent.
  method SendNext(fragments: F.Fragments, before: seq<Bytes>) returns (step: F.Step, sent: seq<Bytes>)
    requires fragments.Valid() && before == Datagrams(fragments.origin, fragments.nextFragId)
    requires fragments.origin.StartsInside(fragments.nextFragId)
    modifies fragments
    ensures step.Exhausted? ==>
              sent == Datagrams(fragments.origin, fragments.origin.Total()) && fragments.origin.StaysInBounds()
    ensures step.OutOfBounds? ==>
              && sent == before && !fragments.origin.StaysInBounds()
              && old(fragments.nextFragId) == fragments.origin.Total() - 1
    ensures step.Fragment? ==>
              && fragments.Valid()
              && fragments.nextFragId == old(fragments.nextFragId) + 1
              && fragments.origin.StartsInside(fragments.nextFragId)
              && sent == Datagrams(fragments.origin, fragments.nextFragId)
  {
    ghost var id := fragments.nextFragId;
    step := fragments.Next();
    sent := before;
    if step.OutOfBounds? {
      F.OutsideOnlyAtLast(fragments.origin, id);
    }
    if step.Fragment? {
      OneMoreSent(fragments.origin, id);
      var dg := FragmentDatagram(step.header, step.data);
      sent := sent + [dg];
    }
  }

  // Runs the fragment iterator to its end, or to the fragment that starts past the payload.
  method SendFragments(fragments: F.Fragments) returns (ok: bool, sent: seq<Bytes>)
    requires fragments.Valid() && fragments.nextFragId == 0
    modifies fragments
    ensures ok <==> fragments.origin.StaysInBounds()
    ensures ok ==> sent == Datagrams(fragments.origin, fragments.origin.Total())
    ensures !ok ==> fragments.origin.Total() > 0 && sent == Datagrams(fragments.origin, fragments.origin.Total() - 1)
  {
    sent := [];
    while true
      invariant fragments.Valid()
      invariant sent == Datagrams(fragments.origin, fragments.nextFragId)
      invariant fragments.origin.StartsInside(fragments.nextFragId)
      decreases fragments.fragTotal - fragments.nextFragId
    {
      var step;
      step, sent := SendNext(fragments, sent);
      match step {
        case Exhausted =>
          return true, sent;
        case OutOfBounds =>
          return false, sent;
        case Fragment(_, _) =>
      }
    }
  }
}
