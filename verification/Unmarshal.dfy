// Reading command headers: what a byte string decodes to, and the readers that advance a
// stream cursor field by field.
module Unmarshal {
  import opened Wrappers
  import opened Protocol

  datatype UnmarshalError =
    | UnexpectedEof
    | InvalidVersion(version: u8)
    | InvalidCommand(command: u8)
    | InvalidAddressType(typeCode: u8)
    | AddressParse

  /** A decoded value and the bytes that follow it. */
  datatype Decoded<+T> = Got(value: T, rest: Bytes) | Failed(error: UnmarshalError)

  /** Pairs of bytes as big-endian integers. */
  function DecodeSegments(bytes: Bytes): (segments: seq<u16>)
    ensures |segments| == |bytes| / 2
  {
    if |bytes| < 2 then [] else [U16FromBytes(bytes[0], bytes[1])] + DecodeSegments(bytes[2..])
  }

  // What follows the type code of a domain name: its length, the name, the port.
  function DecodeDomainAddress(s: Bytes): Decoded<Address> {
    if |s| < 1 then Failed(UnexpectedEof)
    else
      var n: int := s[0];
      if |s| < 1 + n + 2 then Failed(UnexpectedEof)
      else if !ValidUtf8(s[1..1 + n]) then Failed(AddressParse)
      else Got(DomainAddress(s[1..1 + n], U16FromBytes(s[1 + n], s[2 + n])), s[3 + n..])
  }

  function DecodeAddress(s: Bytes): Decoded<Address> {
    if |s| < 1 then Failed(UnexpectedEof)
    else if s[0] == TYPE_CODE_NONE then Got(NoAddress, s[1..])
    else if s[0] == TYPE_CODE_DOMAIN then DecodeDomainAddress(s[1..])
    else if s[0] == TYPE_CODE_IPV4 then
      if |s| < 7 then Failed(UnexpectedEof)
      else Got(Ipv4Address(s[1..5], U16FromBytes(s[5], s[6])), s[7..])
    else if s[0] == TYPE_CODE_IPV6 then
      if |s| < 19 then Failed(UnexpectedEof)
      else Got(Ipv6Address(DecodeSegments(s[1..17]), U16FromBytes(s[17], s[18]), 0, 0), s[19..])
    else Failed(InvalidAddressType(s[0]))
  }

  function DecodePacket(s: Bytes): Decoded<PacketHeader> {
    if |s| < 8 then Failed(UnexpectedEof)
    else
      match DecodeAddress(s[8..])
      case Failed(e) => Failed(e)
      case Got(addr, rest) =>
        Got(PacketHeader(U16FromBytes(s[0], s[1]), U16FromBytes(s[2], s[3]), s[4], s[5],
                        U16FromBytes(s[6], s[7]), addr), rest)
  }

  function DecodeCommand(command: u8, s: Bytes): Decoded<Header> {
    if command == TYPE_CODE_AUTHENTICATE then
      if |s| < 48 then Failed(UnexpectedEof) else Got(Authenticate(s[..16], s[16..48]), s[48..])
    else if command == TYPE_CODE_CONNECT then
      match DecodeAddress(s)
      case Failed(e) => Failed(e)
      case Got(addr, rest) => Got(Connect(addr), rest)
    else if command == TYPE_CODE_PACKET then
      match DecodePacket(s)
      case Failed(e) => Failed(e)
      case Got(packet, rest) => Got(Packet(packet), rest)
    else if command == TYPE_CODE_DISSOCIATE then
      if |s| < 2 then Failed(UnexpectedEof) else Got(Dissociate(U16FromBytes(s[0], s[1])), s[2..])
    else if command == TYPE_CODE_HEARTBEAT then Got(Heartbeat, s)
    else Failed(InvalidCommand(command))
  }

  function DecodeHeader(s: Bytes): Decoded<Header> {
    if |s| < 1 then Failed(UnexpectedEof)
    else if s[0] != VERSION then Failed(InvalidVersion(s[0]))
    else if |s| < 2 then Failed(UnexpectedEof)
    else DecodeCommand(s[1], s[2..])
  }

  /** A stream of bytes with a read position. */
  class Reader {
    const src: Bytes
    var pos: nat

    ghost predicate Valid()
      reads this
    {
      pos <= |src|
    }

    function Remaining(): Bytes
      requires Valid()
      reads this
    {
      src[pos..]
    }

    constructor (bytes: Bytes)
      ensures Valid() && src == bytes && pos == 0
    {
      src := bytes;
      pos := 0;
    }

    // Takes exactly `n` bytes, or fails with the cursor at the end.
    method ReadExact(n: nat) returns (r: Option<Bytes>)
      requires Valid()
      modifies this
      ensures Valid()
      ensures r.Some? <==> n <= |old(Remaining())|
      ensures r.Some? ==> r.value == old(Remaining())[..n] && Remaining() == old(Remaining())[n..]
    {
      if n <= |src| - pos {
        r := Some(src[pos..pos + n]);
        pos := pos + n;
      } else {
        pos := |src|;
        r := None;
      }
    }
  }

  /** The reader's answer `r` and its new remainder are those of the decoding `d`. */
  ghost predicate Agrees<T>(d: Decoded<T>, r: Result<T, UnmarshalError>, remaining: Bytes) {
    match d
    case Got(value, rest) => r == Ok(value) && remaining == rest
    case Failed(error) => r == Err(error)
  }

  method ReadAddress(s: Reader) returns (r: Result<Address, UnmarshalError>)
    requires s.Valid()
    modifies s
    ensures s.Valid()
    ensures Agrees(DecodeAddress(old(s.Remaining())), r, s.Remaining())
  {
    var buf := s.ReadExact(1);
    if buf.None? {
      return Err(UnexpectedEof);
    }
    var typeCode := buf.value[0];
    if typeCode == TYPE_CODE_NONE {
      r := Ok(NoAddress);
    } else if typeCode == TYPE_CODE_DOMAIN {
      r := ReadDomainAddress(s);
    } else if typeCode == TYPE_CODE_IPV4 {
      buf := s.ReadExact(6);
      if buf.None? {
        return Err(UnexpectedEof);
      }
      var b := buf.value;
      assert b[..4] == old(s.Remaining())[1..5];
      r := Ok(Ipv4Address(b[..4], U16FromBytes(b[4], b[5])));
    } else if typeCode == TYPE_CODE_IPV6 {
      buf := s.ReadExact(18);
      if buf.None? {
        return Err(UnexpectedEof);
      }
      var b := buf.value;
      assert b[..16] == old(s.Remaining())[1..17];
      r := Ok(Ipv6Address(DecodeSegments(b[..16]), U16FromBytes(b[16], b[17]), 0, 0));
    } else {
      r := Err(InvalidAddressType(typeCode));
    }
  }

  method ReadDomainAddress(s: Reader) returns (r: Result<Address, UnmarshalError>)
    requires s.Valid()
    modifies s
    ensures s.Valid()
    ensures Agrees(DecodeDomainAddress(old(s.Remaining())), r, s.Remaining())
  {
    var buf := s.ReadExact(1);
    if buf.None? {
      return Err(UnexpectedEof);
    }
    var len: nat := buf.value[0];
    buf := s.ReadExact(len + 2);
    if buf.None? {
      return Err(UnexpectedEof);
    }
    var b := buf.value;
    var port := U16FromBytes(b[len], b[len + 1]);
    b := b[..len];
    assert b == old(s.Remaining())[1..1 + len];
    if !ValidUtf8(b) {
      return Err(AddressParse);
    }
    r := Ok(DomainAddress(b, port));
  }

  method ReadPacket(s: Reader) returns (r: Result<PacketHeader, UnmarshalError>)
    requires s.Valid()
    modifies s
    ensures s.Valid()
    ensures Agrees(DecodePacket(old(s.Remaining())), r, s.Remaining())
  {
    var buf := s.ReadExact(8);
    if buf.None? {
      return Err(UnexpectedEof);
    }
    var b := buf.value;
    var assocId := U16FromBytes(b[0], b[1]);
    var pktId := U16FromBytes(b[2], b[3]);
    var fragTotal := b[4];
    var fragId := b[5];
    var size := U16FromBytes(b[6], b[7]);
    var addr := ReadAddress(s);
    if addr.Err? {
      return Err(addr.error);
    }
    r := Ok(PacketHeader(assocId, pktId, fragTotal, fragId, size, addr.value));
  }

  method ReadCommand(command: u8, s: Reader) returns (r: Result<Header, UnmarshalError>)
    requires s.Valid()
    modifies s
    ensures s.Valid()
    ensures Agrees(DecodeCommand(command, old(s.Remaining())), r, s.Remaining())
  {
    if command == TYPE_CODE_AUTHENTICATE {
      var buf := s.ReadExact(48);
      if buf.None? {
        return Err(UnexpectedEof);
      }
      assert buf.value[..16] == old(s.Remaining())[..16];
      assert buf.value[16..] == old(s.Remaining())[16..48];
      r := Ok(Authenticate(buf.value[..16], buf.value[16..]));
    } else if command == TYPE_CODE_CONNECT {
      var addr := ReadAddress(s);
      r := if addr.Ok? then Ok(Connect(addr.value)) else Err(addr.error);
    } else if command == TYPE_CODE_PACKET {
      var packet := ReadPacket(s);
      r := if packet.Ok? then Ok(Packet(packet.value)) else Err(packet.error);
    } else if command == TYPE_CODE_DISSOCIATE {
      var buf := s.ReadExact(2);
      if buf.None? {
        return Err(UnexpectedEof);
      }
      r := Ok(Dissociate(U16FromBytes(buf.value[0], buf.value[1])));
    } else if command == TYPE_CODE_HEARTBEAT {
      r := Ok(Heartbeat);
    } else {
      r := Err(InvalidCommand(command));
    }
  }

  method UnmarshalHeader(s: Reader) returns (r: Result<Header, UnmarshalError>)
    requires s.Valid()
    modifies s
    ensures s.Valid()
    ensures Agrees(DecodeHeader(old(s.Remaining())), r, s.Remaining())
  {
    var buf := s.ReadExact(1);
    if buf.None? {
      return Err(UnexpectedEof);
    }
    var ver := buf.value[0];
    if ver != VERSION {
      return Err(InvalidVersion(ver));
    }
    buf := s.ReadExact(1);
    if buf.None? {
      return Err(UnexpectedEof);
    }
    assert s.Remaining() == old(s.Remaining())[2..];
    r := ReadCommand(buf.value[0], s);
  }
}
