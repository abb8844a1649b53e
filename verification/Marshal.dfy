// Writing command headers: the byte string each header stands for, and the writers that
// append it to a growing buffer field by field.
module Marshal {
  import opened Protocol

  /** All segments of an IPv6 address, each as two big-endian bytes. */
  function EncodeSegments(segments: seq<u16>): (bytes: Bytes)
    ensures |bytes| == 2 * |segments|
  {
    if segments == [] then [] else U16Bytes(segments[0]) + EncodeSegments(segments[1..])
  }

  function EncodeAddress(a: Address): Bytes {
    [a.TypeCode()] +
    match a
    case NoAddress => []
    // The length is cast to one byte; the domain itself is written in full.
    case DomainAddress(domain, port) => [|domain| % 0x100] + domain + U16Bytes(port)
    case Ipv4Address(ip, port) => ip + U16Bytes(port)
    case Ipv6Address(segments, port, _, _) => EncodeSegments(segments) + U16Bytes(port)
  }

  function EncodePacket(p: PacketHeader): Bytes {
    U16Bytes(p.assocId) + U16Bytes(p.pktId) + [p.fragTotal, p.fragId] + U16Bytes(p.size) + EncodeAddress(p.addr)
  }

  function EncodeHeader(h: Header): Bytes {
    [VERSION, h.TypeCode()] + EncodeCommand(h)
  }

  // The part of a header after version and type code.
  function EncodeCommand(h: Header): Bytes {
    match h
    case Authenticate(uuid, token) => uuid + token
    case Connect(addr) => EncodeAddress(addr)
    case Packet(packet) => EncodePacket(packet)
    case Dissociate(assocId) => U16Bytes(assocId)
    case Heartbeat => []
  }

  /** A growing byte buffer. */
  class BufMut {
    var data: Bytes

    constructor ()
      ensures data == []
    {
      data := [];
    }

    method PutU8(b: u8)
      modifies this
      ensures data == old(data) + [b]
    {
      data := data + [b];
    }

    method PutU16(n: u16)
      modifies this
      ensures data == old(data) + U16Bytes(n)
    {
      data := data + U16Bytes(n);
    }

    method PutSlice(s: Bytes)
      modifies this
      ensures data == old(data) + s
    {
      data := data + s;
    }
  }

  method WriteAddress(a: Address, buf: BufMut)
    modifies buf
    ensures buf.data == old(buf.data) + EncodeAddress(a)
  {
    buf.PutU8(a.TypeCode());
    match a {
      case NoAddress =>
      case DomainAddress(domain, port) =>
        buf.PutU8(|domain| % 0x100);
        buf.PutSlice(domain);
        buf.PutU16(port);
      case Ipv4Address(ip, port) =>
        buf.PutSlice(ip);
        buf.PutU16(port);
      case Ipv6Address(segments, port, _, _) =>
        WriteSegments(segments, buf);
        buf.PutU16(port);
    }
  }

  method WriteSegments(segments: seq<u16>, buf: BufMut)
    modifies buf
    ensures buf.data == old(buf.data) + EncodeSegments(segments)
  {
    for i := 0 to |segments|
      invariant buf.data + EncodeSegments(segments[i..]) == old(buf.data) + EncodeSegments(segments)
    {
      assert segments[i..][1..] == segments[i + 1..];
      buf.PutU16(segments[i]);
    }
  }

  method WritePacket(p: PacketHeader, buf: BufMut)
    modifies buf
    ensures buf.data == old(buf.data) + EncodePacket(p)
  {
    buf.PutU16(p.assocId);
    buf.PutU16(p.pktId);
    buf.PutU8(p.fragTotal);
    buf.PutU8(p.fragId);
    buf.PutU16(p.size);
    WriteAddress(p.addr, buf);
  }

  lemma AppendedInSteps(a: Bytes, x: u8, y: u8, b: Bytes)
    ensures a + [x] + [y] + b == a + ([x, y] + b)
  {
  }

  method WriteHeader(h: Header, buf: BufMut)
    modifies buf
    ensures buf.data == old(buf.data) + EncodeHeader(h)
  {
    buf.PutU8(VERSION);
    buf.PutU8(h.TypeCode());
    WriteCommand(h, buf);
    AppendedInSteps(old(buf.data), VERSION, h.TypeCode(), EncodeCommand(h));
  }

  method WriteCommand(h: Header, buf: BufMut)
    modifies buf
    ensures buf.data == old(buf.data) + EncodeCommand(h)
  {
    match h {
      case Authenticate(uuid, token) =>
        buf.PutSlice(uuid);
        buf.PutSlice(token);
      case Connect(addr) => WriteAddress(addr, buf);
      case Packet(packet) => WritePacket(packet, buf);
      case Dissociate(assocId) => buf.PutU16(assocId);
      case Heartbeat =>
    }
  }
}
