// What each side makes of each command it is sent, from the bytes: which commands it takes
// from a datagram and from a stream, and what they do to the server's table.
module Commands {
  import opened Wrappers
  import opened Protocol
  import opened Marshal
  import opened Unmarshal
  import opened Codec
  import opened Relay
  import R = Reassembly

  // The payload of a packet command, if all of it is there.
  function Payload(p: PacketHeader, rest: Bytes): Option<Bytes> {
    if p.size as int <= |rest| then Some(rest[..p.size]) else None
  }

  /** From a datagram the server takes packets and heartbeats, and nothing else. */
  lemma ServerTakesFromDatagram(h: Header, rest: Bytes)
    requires h.Encodable()
    ensures ServerDatagram(EncodeHeader(h) + rest) ==
            match h
            case Packet(p) =>
              if Payload(p, rest).Some? then Ok(PacketTask(p, Payload(p, rest).value)) else Err(SliceOutOfRange)
            case Heartbeat => Ok(HeartbeatTask)
            case _ => Err(BadCommand(h))
  {
    RoundTrip(h, rest);
  }

  /** From a stream the server takes authentications, packets and dissociations, and nothing else. */
  lemma ServerTakesFromStream(h: Header, rest: Bytes)
    requires h.Encodable()
    ensures ServerStream(EncodeHeader(h) + rest) ==
            match h
            case Authenticate(uuid, token) => Ok(AuthenticateTask(uuid, token))
            case Packet(p) =>
              if Payload(p, rest).Some? then Ok(PacketTask(p, Payload(p, rest).value))
              else Err(BadHeader(UnexpectedEof))
            case Dissociate(a) => Ok(DissociateTask(a))
            case _ => Err(BadCommand(h))
  {
    RoundTrip(h, rest);
  }

  /** From either a client takes packets of associations it knows, and nothing else. */
  lemma ClientTakes(t: R.Table, h: Header, rest: Bytes)
    requires h.Encodable()
    ensures ClientDatagram(t, EncodeHeader(h) + rest) ==
            match h
            case Packet(p) =>
              if p.assocId !in t then Err(InvalidUdpSession(p.assocId, p.pktId))
              else if Payload(p, rest).Some? then Ok(PacketTask(p, Payload(p, rest).value))
              else Err(PayloadLength(p.size, |rest|))
            case _ => Err(BadCommand(h))
    ensures ClientStream(t, EncodeHeader(h) + rest) ==
            match h
            case Packet(p) =>
              if p.assocId !in t then Err(InvalidUdpSession(p.assocId, p.pktId))
              else if Payload(p, rest).Some? then Ok(PacketTask(p, Payload(p, rest).value))
              else Err(BadHeader(UnexpectedEof))
            case _ => Err(BadCommand(h))
  {
    RoundTrip(h, rest);
  }

  /** On the server's table a packet opens exactly the session of its own association, even when its payload falls short; nothing else in a datagram does anything. */
  lemma DatagramEffect(t: R.Table, h: Header, rest: Bytes)
    requires h.Encodable()
    ensures var t' := AfterServerTask(t, DecodeHeader(EncodeHeader(h) + rest));
            && t'.Keys == t.Keys + (if h.Packet? then {h.packet.assocId} else {})
            && (forall a :: a in t ==> t'[a] == t[a])
            && (forall a :: a in t' && a !in t ==> t'[a] == R.Session(map[], 0))
  {
    RoundTrip(h, rest);
  }

  /** Likewise on a stream, where a dissociation removes exactly the session of its own association. */
  lemma StreamEffect(t: R.Table, h: Header, rest: Bytes)
    requires h.Encodable()
    ensures var t' := AfterServerStream(t, DecodeHeader(EncodeHeader(h) + rest));
            && t'.Keys ==
               (if h.Packet? then t.Keys + {h.packet.assocId}
                else if h.Dissociate? then t.Keys - {h.assocId}
                else t.Keys)
            && (forall a :: a in t && a in t' ==> t'[a] == t[a])
            && (forall a :: a in t' && a !in t ==> t'[a] == R.Session(map[], 0))
  {
    RoundTrip(h, rest);
  }

  /** Bytes that are no command are refused by all, with the error reading them gives, and do nothing. */
  lemma UnreadableIsRefused(t: R.Table, s: Bytes, e: UnmarshalError)
    requires DecodeHeader(s) == Failed(e)
    ensures ServerDatagram(s) == ServerStream(s) == Err(BadHeader(e))
    ensures ClientDatagram(t, s) == ClientStream(t, s) == Err(BadHeader(e))
    ensures AfterServerTask(t, DecodeHeader(s)) == AfterServerStream(t, DecodeHeader(s)) == t
  {
  }
}
