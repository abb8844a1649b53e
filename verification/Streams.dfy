// Receiving on unidirectional streams: the header is read when the stream is accepted, the
// payload only when the packet is.
module Streams {
  import opened Wrappers
  import opened Protocol
  import opened Unmarshal
  import opened Relay
  import R = Reassembly
  import U = UdpSessions

  method AcceptServerStream(sessions: U.UdpSessions, s: Reader) returns (r: Result<Head, AcceptError>)
    requires sessions.Valid() && s.Valid() && s !in sessions.Repr
    modifies sessions, s
    ensures sessions.Valid() && fresh(sessions.Repr - old(sessions.Repr)) && s.Valid()
    ensures r == ServerStreamHead(DecodeHeader(old(s.Remaining())))
    ensures r.Ok? ==> s.Remaining() == AfterHeader(DecodeHeader(old(s.Remaining())))
    ensures sessions.view == AfterServerStream(old(sessions.view), DecodeHeader(old(s.Remaining())))
  {
    var header := UnmarshalHeader(s);
    if header.Ok? {
      r := AcceptServerHead(sessions, header.value, s.Remaining());
    } else {
      r := Err(BadHeader(header.error));
    }
  }

  // What the server does once the header is read.
  method AcceptServerHead(sessions: U.UdpSessions, header: Header, ghost rest: Bytes) returns (r: Result<Head, AcceptError>)
    requires sessions.Valid()
    modifies sessions
    ensures sessions.Valid() && fresh(sessions.Repr - old(sessions.Repr))
    ensures r == ServerStreamHead(Got(header, rest))
    ensures sessions.view == AfterServerStream(old(sessions.view), Got(header, rest))
  {
    ApplyServerHead(sessions, header);
    match header {
      case Packet(h) => r := Ok(PacketHead(h));
      case Authenticate(uuid, token) => r := Ok(AuthenticateHead(uuid, token));
      case Dissociate(assocId) => r := Ok(DissociateHead(assocId));
      case other => r := Err(BadCommand(other));
    }
  }

  // What it does to the table: a packet opens its session, a dissociation removes one.
  method ApplyServerHead(sessions: U.UdpSessions, header: Header)
    requires sessions.Valid()
    modifies sessions
    ensures sessions.Valid() && fresh(sessions.Repr - old(sessions.Repr))
    ensures header.Packet? ==> sessions.view == R.OpenSession(old(sessions.view), header.packet.assocId)
    ensures header.Dissociate? ==> sessions.view == R.Dissociate(old(sessions.view), header.assocId)
    ensures !header.Packet? && !header.Dissociate? ==> sessions.view == old(sessions.view)
  {
    if header.Packet? {
      sessions.RecvPacketUnrestricted(header.packet.assocId);
    } else if header.Dissociate? {
      sessions.Dissociate(header.assocId);
    }
  }

  method AcceptClientStream(sessions: U.UdpSessions, s: Reader) returns (r: Result<Head, AcceptError>)
    requires sessions.Valid() && s.Valid() && s !in sessions.Repr
    modifies s
    ensures sessions.Valid() && s.Valid()
    ensures r == ClientStreamHead(sessions.view, DecodeHeader(old(s.Remaining())))
    ensures r.Ok? ==> s.Remaining() == AfterHeader(DecodeHeader(old(s.Remaining())))
  {
    var header := UnmarshalHeader(s);
    if header.Ok? {
      r := AcceptClientHead(sessions, header.value, s.Remaining());
    } else {
      r := Err(BadHeader(header.error));
    }
  }

  // What the client does once the header is read.
  method AcceptClientHead(sessions: U.UdpSessions, header: Header, ghost rest: Bytes) returns (r: Result<Head, AcceptError>)
    requires sessions.Valid()
    ensures r == ClientStreamHead(sessions.view, Got(header, rest))
  {
    match header {
      case Packet(h) =>
        var known := sessions.RecvPacket(h.assocId);
        r := if known then Ok(PacketHead(h)) else Err(InvalidUdpSession(h.assocId, h.pktId));
      case other =>
        r := Err(BadCommand(other));
    }
  }

  /** Reads the payload of an accepted packet from its stream and hands it over; a stream that ends too early changes nothing. */
  method AcceptFromStream(sessions: U.UdpSessions, h: PacketHeader, s: Reader, now: nat)
    returns (r: Result<Handed, UnmarshalError>)
    requires sessions.Valid() && s.Valid() && s !in sessions.Repr
    modifies sessions, sessions.Repr, s
    ensures sessions.Valid() && fresh(sessions.Repr - old(sessions.Repr))
    ensures var payload := old(s.Remaining());
            if h.size as int > |payload| then
              r == Err(UnexpectedEof) && sessions.view == old(sessions.view)
            else
              var (t, out) := R.Insert(old(sessions.view), h, payload[..h.size], now);
              && sessions.view == t
              && (out.Delivered? ==> R.Complete(out.packet))
              && r == Ok(HandOver(out))
  {
    var data := s.ReadExact(h.size);
    if data.None? {
      return Err(UnexpectedEof);
    }
    var handed := Accept(sessions, h, data.value, now);
    r := Ok(handed);
  }
}
