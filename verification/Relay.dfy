// Receiving over a connection: what arrives as a datagram or on a stream is read, handed to
// the session table and put together again.
module Relay {
  import opened Wrappers
  import opened Protocol
  import opened Unmarshal
  import R = Reassembly
  import U = UdpSessions

  datatype Task =
    | PacketTask(header: PacketHeader, data: Bytes)
    | AuthenticateTask(uuid: Uuid, token: Token)
    | DissociateTask(assocId: u16)
    | HeartbeatTask

  datatype AcceptError =
    | BadHeader(error: UnmarshalError)
    | BadCommand(header: Header)
    | InvalidUdpSession(assocId: u16, pktId: u16)
    | PayloadLength(expected: nat, available: nat)
    | SliceOutOfRange   // the server slices the datagram unchecked

  /** What the server makes of a decoded datagram. */
  function ServerTask(d: Decoded<Header>): Result<Task, AcceptError> {
    match d
    case Failed(e) => Err(BadHeader(e))
    case Got(Packet(h), rest) =>
      if h.size as int <= |rest| then Ok(PacketTask(h, rest[..h.size])) else Err(SliceOutOfRange)
    case Got(Heartbeat, _) => Ok(HeartbeatTask)
    case Got(h, _) => Err(BadCommand(h))
  }

  /** What a decoded datagram does to the server's table, even when its payload is too short. */
  function AfterServerTask(t: R.Table, d: Decoded<Header>): R.Table {
    match d
    case Got(Packet(h), _) => R.OpenSession(t, h.assocId)
    case _ => t
  }

  /** What the client makes of a decoded datagram: only known associations may receive. */
  function ClientTask(t: R.Table, d: Decoded<Header>): Result<Task, AcceptError> {
    match d
    case Failed(e) => Err(BadHeader(e))
    case Got(Packet(h), rest) =>
      if h.assocId !in t then Err(InvalidUdpSession(h.assocId, h.pktId))
      else if h.size as int <= |rest| then Ok(PacketTask(h, rest[..h.size]))
      else Err(PayloadLength(h.size, |rest|))
    case Got(h, _) => Err(BadCommand(h))
  }

  function ServerDatagram(dg: Bytes): Result<Task, AcceptError> {
    ServerTask(DecodeHeader(dg))
  }

  function ClientDatagram(t: R.Table, dg: Bytes): Result<Task, AcceptError> {
    ClientTask(t, DecodeHeader(dg))
  }

  /** What the header at the front of a unidirectional stream announces. */
  datatype Head =
    | PacketHead(header: PacketHeader)
    | AuthenticateHead(uuid: Uuid, token: Token)
    | DissociateHead(assocId: u16)

  /** What the server makes of the header of a stream, before it reads any payload. */
  function ServerStreamHead(d: Decoded<Header>): Result<Head, AcceptError> {
    match d
    case Failed(e) => Err(BadHeader(e))
    case Got(Packet(h), _) => Ok(PacketHead(h))
    case Got(Authenticate(uuid, token), _) => Ok(AuthenticateHead(uuid, token))
    case Got(Dissociate(assocId), _) => Ok(DissociateHead(assocId))
    case Got(h, _) => Err(BadCommand(h))
  }

  /** What the header of a stream does to the server's table. */
  function AfterServerStream(t: R.Table, d: Decoded<Header>): R.Table {
    match d
    case Got(Packet(h), _) => R.OpenSession(t, h.assocId)
    case Got(Dissociate(assocId), _) => R.Dissociate(t, assocId)
    case _ => t
  }

  /** What the client makes of the header of a stream. */
  function ClientStreamHead(t: R.Table, d: Decoded<Header>): Result<Head, AcceptError> {
    match d
    case Failed(e) => Err(BadHeader(e))
    case Got(Packet(h), _) =>
      if h.assocId in t then Ok(PacketHead(h)) else Err(InvalidUdpSession(h.assocId, h.pktId))
    case Got(h, _) => Err(BadCommand(h))
  }

  // The task a stream amounts to, once the payload is read to its stated size.
  function WithPayload(head: Result<Head, AcceptError>, payload: Bytes): Result<Task, AcceptError> {
    match head
    case Err(e) => Err(e)
    case Ok(PacketHead(h)) =>
      if h.size as int <= |payload| then Ok(PacketTask(h, payload[..h.size])) else Err(BadHeader(UnexpectedEof))
    case Ok(AuthenticateHead(uuid, token)) => Ok(AuthenticateTask(uuid, token))
    case Ok(DissociateHead(assocId)) => Ok(DissociateTask(assocId))
  }

  /** What follows the header, if there is one. */
  function AfterHeader(d: Decoded<Header>): Bytes {
    if d.Got? then d.rest else []
  }

  function ServerStream(s: Bytes): Result<Task, AcceptError> {
    var d := DecodeHeader(s);
    WithPayload(ServerStreamHead(d), AfterHeader(d))
  }

  function ClientStream(t: R.Table, s: Bytes): Result<Task, AcceptError> {
    var d := DecodeHeader(s);
    WithPayload(ClientStreamHead(t, d), AfterHeader(d))
  }

  /** Some receiver reads `bytes` as this fragment: the server or a client that knows the association, from a datagram or a stream. */
  ghost predicate ReadAs(bytes: Bytes, h: PacketHeader, data: Bytes) {
    var task := Ok(PacketTask(h, data));
    || ServerDatagram(bytes) == task
    || ServerStream(bytes) == task
    || (exists t :: ClientDatagram(t, bytes) == task)
    || (exists t :: ClientStream(t, bytes) == task)
  }

  // Reads the header at the front, and tells where the payload starts.
  method ReadFront(bytes: Bytes) returns (header: Result<Header, UnmarshalError>, pos: nat)
    ensures DecodeHeader(bytes).Failed? ==> header == Err(DecodeHeader(bytes).error)
    ensures DecodeHeader(bytes).Got? ==>
              && header == Ok(DecodeHeader(bytes).value)
              && pos <= |bytes| && bytes[pos..] == DecodeHeader(bytes).rest
  {
    var s := new Reader(bytes);
    header := UnmarshalHeader(s);
    pos := s.pos;
  }

  method SlicePayload(bytes: Bytes, pos: nat, size: nat) returns (data: Option<Bytes>)
    requires pos <= |bytes|
    ensures data == if size <= |bytes[pos..]| then Some(bytes[pos..][..size]) else None
  {
    if pos + size <= |bytes| {
      assert bytes[pos..pos + size] == bytes[pos..][..size];
      data := Some(bytes[pos..pos + size]);
    } else {
      data := None;
    }
  }

  method AcceptServerDatagram(sessions: U.UdpSessions, dg: Bytes) returns (r: Result<Task, AcceptError>)
    requires sessions.Valid()
    modifies sessions
    ensures sessions.Valid() && fresh(sessions.Repr - old(sessions.Repr))
    ensures r == ServerDatagram(dg)
    ensures sessions.view == AfterServerTask(old(sessions.view), DecodeHeader(dg))
  {
    var header, pos := ReadFront(dg);
    if header.Err? {
      return Err(BadHeader(header.error));
    }
    r := AcceptServerHeader(sessions, header.value, dg, pos);
  }

  method AcceptServerHeader(sessions: U.UdpSessions, header: Header, dg: Bytes, pos: nat)
    returns (r: Result<Task, AcceptError>)
    requires sessions.Valid() && pos <= |dg|
    modifies sessions
    ensures sessions.Valid() && fresh(sessions.Repr - old(sessions.Repr))
    ensures r == ServerTask(Got(header, dg[pos..]))
    ensures sessions.view == AfterServerTask(old(sessions.view), Got(header, dg[pos..]))
  {
    ApplyServerHeader(sessions, header);
    r := AnswerServerHeader(header, dg, pos);
  }

  method ApplyServerHeader(sessions: U.UdpSessions, header: Header)
    requires sessions.Valid()
    modifies sessions
    ensures sessions.Valid() && fresh(sessions.Repr - old(sessions.Repr))
    ensures header.Packet? ==> sessions.view == R.OpenSession(old(sessions.view), header.packet.assocId)
    ensures !header.Packet? ==> sessions.view == old(sessions.view)
  {
    if header.Packet? {
      sessions.RecvPacketUnrestricted(header.packet.assocId);
    }
  }

  method AnswerServerHeader(header: Header, dg: Bytes, pos: nat) returns (r: Result<Task, AcceptError>)
    requires pos <= |dg|
    ensures r == ServerTask(Got(header, dg[pos..]))
  {
    match header {
      case Packet(h) =>
        var data := SlicePayload(dg, pos, h.size);
        r := if data.Some? then Ok(PacketTask(h, data.value)) else Err(SliceOutOfRange);
      case Heartbeat =>
        r := Ok(HeartbeatTask);
      case other =>
        r := Err(BadCommand(other));
    }
  }

  method AcceptClientDatagram(sessions: U.UdpSessions, dg: Bytes) returns (r: Result<Task, AcceptError>)
    requires sessions.Valid()
    ensures r == ClientDatagram(sessions.view, dg)
  {
    var header, pos := ReadFront(dg);
    if header.Err? {
      return Err(BadHeader(header.error));
    }
    r := AcceptClientHeader(sessions, header.value, dg, pos);
  }

  method AcceptClientHeader(sessions: U.UdpSessions, header: Header, dg: Bytes, pos: nat)
    returns (r: Result<Task, AcceptError>)
    requires sessions.Valid() && pos <= |dg|
    ensures r == ClientTask(sessions.view, Got(header, dg[pos..]))
  {
    match header {
      case Packet(h) =>
        var known := sessions.RecvPacket(h.assocId);
        if !known {
          return Err(InvalidUdpSession(h.assocId, h.pktId));
        }
        var data := SlicePayload(dg, pos, h.size);
        r := if data.Some? then Ok(PacketTask(h, data.value)) else Err(PayloadLength(h.size, |dg| - pos));
      case other =>
        r := Err(BadCommand(other));
    }
  }

  /** What accepting the payload of a packet task comes to. */
  datatype Handed =
    | NotYet
    | Received(payload: Bytes, addr: Address, assocId: u16)
    | AssembleFailed(error: R.AssembleError)
    | Aborted(panic: R.Panic)

  function HandOver(out: R.Outcome): Handed
    requires out.Delivered? ==> R.Complete(out.packet)
  {
    match out
    case Delivered(p) => Received(Concat(R.Parts(p.slots)), p.addr, p.assocId)
    case Pending => NotYet
    case Rejected(e) => AssembleFailed(e)
    case Panicked(p) => Aborted(p)
  }

  method Accept(sessions: U.UdpSessions, h: PacketHeader, data: Bytes, now: nat) returns (r: Handed)
    requires sessions.Valid()
    modifies sessions, sessions.Repr
    ensures sessions.Valid() && fresh(sessions.Repr - old(sessions.Repr))
    ensures var (t, out) := R.Insert(old(sessions.view), h, data, now);
            && sessions.view == t
            && (out.Delivered? ==> R.Complete(out.packet))
            && r == HandOver(out)
  {
    var out := sessions.Insert(h, data, now);
    r := Finish(out);
  }

  method Finish(out: R.Outcome) returns (r: Handed)
    requires out.Delivered? ==> R.Complete(out.packet)
    ensures r == HandOver(out)
  {
    match out {
      case Delivered(p) =>
        var payload, addr, assocId := U.Assemble(p, []);
        r := Received(payload, addr, assocId);
      case Pending => r := NotYet;
      case Rejected(e) => r := AssembleFailed(e);
      case Panicked(p) => r := Aborted(p);
    }
  }

  /** A fragment some receiver reads has exactly the data its header says, so the size check of the reassembler never fails. */
  lemma TaskSizesMatch(bytes: Bytes, h: PacketHeader, data: Bytes)
    requires ReadAs(bytes, h, data)
    ensures |data| == h.size as int
  {
  }

  /** All receivers read a fragment in the same way: as its header was decoded, with as much of what follows as the header says. */
  lemma ReadAsDecoded(bytes: Bytes, h: PacketHeader, data: Bytes)
    ensures ReadAs(bytes, h, data) <==>
            && DecodeHeader(bytes).Got?
            && DecodeHeader(bytes).value == Packet(h)
            && h.size as int <= |DecodeHeader(bytes).rest|
            && data == DecodeHeader(bytes).rest[..h.size]
  {
  }
}
