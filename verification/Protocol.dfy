// Protocol data of TUIC version 0x05: integers as they appear on the wire, addresses,
// command headers and the lengths the program computes for them.
module Protocol {
  type u8 = n: int | 0 <= n < 0x100
  type u16 = n: int | 0 <= n < 0x1_0000
  type u32 = n: int | 0 <= n < 0x1_0000_0000
  type Bytes = seq<u8>

  const VERSION: u8 := 0x05

  const TYPE_CODE_AUTHENTICATE: u8 := 0x00
  const TYPE_CODE_CONNECT: u8 := 0x01
  const TYPE_CODE_PACKET: u8 := 0x02
  const TYPE_CODE_DISSOCIATE: u8 := 0x03
  const TYPE_CODE_HEARTBEAT: u8 := 0x04

  const TYPE_CODE_DOMAIN: u8 := 0x00
  const TYPE_CODE_IPV4: u8 := 0x01
  const TYPE_CODE_IPV6: u8 := 0x02
  const TYPE_CODE_NONE: u8 := 0xff

  // UTF-8 as defined by section 4 of RFC 3629.

  predicate Utf8Tail(b: u8) {
    0x80 <= b <= 0xBF
  }

  /** Length of the UTF8-char that starts `s`, or 0 when no UTF8-char does. */
  function LeadingUtf8Char(s: Bytes): (n: nat)
    ensures n <= |s|
  {
    if |s| >= 1 && s[0] <= 0x7F then 1
    else if |s| >= 2 && 0xC2 <= s[0] <= 0xDF && Utf8Tail(s[1]) then 2
    else if |s| >= 3 && Utf8Tail(s[2])
            && ((s[0] == 0xE0 && 0xA0 <= s[1] <= 0xBF)
                || (0xE1 <= s[0] <= 0xEC && Utf8Tail(s[1]))
                || (s[0] == 0xED && 0x80 <= s[1] <= 0x9F)
                || (0xEE <= s[0] <= 0xEF && Utf8Tail(s[1]))) then 3
    else if |s| >= 4 && Utf8Tail(s[2]) && Utf8Tail(s[3])
            && ((s[0] == 0xF0 && 0x90 <= s[1] <= 0xBF)
                || (0xF1 <= s[0] <= 0xF3 && Utf8Tail(s[1]))
                || (s[0] == 0xF4 && 0x80 <= s[1] <= 0x8F)) then 4
    else 0
  }

  predicate ValidUtf8(s: Bytes) {
    s == [] || (LeadingUtf8Char(s) > 0 && ValidUtf8(s[LeadingUtf8Char(s)..]))
  }

  // A domain name is a string: any valid UTF-8, of any length.
  type DomainName = s: Bytes | ValidUtf8(s) witness []
  type Ipv4 = s: Bytes | |s| == 4 witness [0, 0, 0, 0]
  type Ipv6 = s: seq<u16> | |s| == 8 witness [0, 0, 0, 0, 0, 0, 0, 0]
  type Uuid = s: Bytes | |s| == 16 witness seq(16, _ => 0)
  type Token = s: Bytes | |s| == 32 witness seq(32, _ => 0)

  datatype Address =
    | NoAddress
    | DomainAddress(domain: DomainName, port: u16)
    | Ipv4Address(ip: Ipv4, port: u16)
    | Ipv6Address(segments: Ipv6, port: u16, flowInfo: u32, scopeId: u32)
  {
    function TypeCode(): u8 {
      match this
      case NoAddress => TYPE_CODE_NONE
      case DomainAddress(_, _) => TYPE_CODE_DOMAIN
      case Ipv4Address(_, _) => TYPE_CODE_IPV4
      case Ipv6Address(_, _, _, _) => TYPE_CODE_IPV6
    }

    function Len(): nat {
      1 + match this
          case NoAddress => 0
          case DomainAddress(domain, _) => 1 + |domain| + 2
          case Ipv4Address(_, _) => 4 + 2
          case Ipv6Address(_, _, _, _) => 16 + 2
    }

    /** The one-byte length field holds the length of the domain. */
    predicate DomainFits() {
      DomainAddress? ==> |domain| <= 0xff
    }

    /** The written address can be read at all: a domain too long for its length field is cut there, perhaps in the middle of a character. */
    predicate Readable() {
      DomainAddress? ==> |domain| <= 0xff || ValidUtf8(domain[..|domain| % 0x100])
    }

    /**
     * What the written address is read as. Flow info and scope id of an IPv6 address are not
     * written. A domain too long for its length field is read up to its length modulo 256, with
     * its next two bytes as the port; nothing is read when that cuts a character.
     */
    function AsRead(): Address {
      match this
      case Ipv6Address(segments, port, _, _) => Ipv6Address(segments, port, 0, 0)
      case DomainAddress(domain, _) =>
        if |domain| <= 0xff then this
        else if ValidUtf8(domain[..|domain| % 0x100]) then
          var n := |domain| % 0x100;
          DomainAddress(domain[..n], U16FromBytes(domain[n], domain[n + 1]))
        else NoAddress
      case _ => this
    }

    /** The bytes of the written address that are left over when it is read. */
    function Spill(): Bytes {
      if DomainAddress? && |domain| > 0xff then domain[|domain| % 0x100 + 2..] + U16Bytes(port) else []
    }

    /** Nothing of the address is lost on the wire. */
    predicate Encodable() {
      DomainFits() && AsRead() == this
    }
  }

  datatype PacketHeader = PacketHeader(
    assocId: u16, pktId: u16, fragTotal: u8, fragId: u8, size: u16, addr: Address)
  {
    function Len(): nat {
      2 + 2 + 1 + 1 + 2 + addr.Len()
    }

    function AsRead(): PacketHeader {
      this.(addr := addr.AsRead())
    }
  }

  datatype Header =
    | Authenticate(uuid: Uuid, token: Token)
    | Connect(addr: Address)
    | Packet(packet: PacketHeader)
    | Dissociate(assocId: u16)
    | Heartbeat
  {
    function TypeCode(): u8 {
      match this
      case Authenticate(_, _) => TYPE_CODE_AUTHENTICATE
      case Connect(_) => TYPE_CODE_CONNECT
      case Packet(_) => TYPE_CODE_PACKET
      case Dissociate(_) => TYPE_CODE_DISSOCIATE
      case Heartbeat => TYPE_CODE_HEARTBEAT
    }

    function Len(): nat {
      2 + match this
          case Authenticate(_, _) => 16 + 32
          case Connect(addr) => addr.Len()
          case Packet(packet) => packet.Len()
          case Dissociate(_) => 2
          case Heartbeat => 0
    }

    predicate DomainFits() {
      (Connect? ==> addr.DomainFits()) && (Packet? ==> packet.addr.DomainFits())
    }

    predicate Readable() {
      (Connect? ==> addr.Readable()) && (Packet? ==> packet.addr.Readable())
    }

    function Spill(): Bytes {
      match this
      case Connect(addr) => addr.Spill()
      case Packet(packet) => packet.addr.Spill()
      case _ => []
    }

    function AsRead(): Header {
      match this
      case Connect(addr) => Connect(addr.AsRead())
      case Packet(packet) => Packet(packet.AsRead())
      case _ => this
    }

    predicate Encodable() {
      DomainFits() && AsRead() == this
    }
  }

  // Big-endian 16-bit integers.

  function U16Bytes(n: u16): (b: Bytes)
    ensures |b| == 2
  {
    [n / 0x100, n % 0x100]
  }

  function U16FromBytes(hi: u8, lo: u8): u16 {
    hi * 0x100 + lo
  }

  lemma U16RoundTrip(n: u16)
    ensures U16FromBytes(U16Bytes(n)[0], U16Bytes(n)[1]) == n
  {
  }

  lemma U16BytesRoundTrip(hi: u8, lo: u8)
    ensures U16Bytes(U16FromBytes(hi, lo)) == [hi, lo]
  {
    assert (hi * 0x100 + lo) / 0x100 == hi;
  }

  /** All parts one after the other. */
  function Concat(parts: seq<Bytes>): Bytes {
    if parts == [] then [] else Concat(parts[..|parts| - 1]) + parts[|parts| - 1]
  }

  lemma ConcatAppend(parts: seq<Bytes>, last: Bytes)
    ensures Concat(parts + [last]) == Concat(parts) + last
  {
    assert (parts + [last])[..|parts|] == parts;
  }

  // Where no part is longer than its slice, all parts are as long as all slices only if each is.
  lemma {:induction false} ShorterParts(parts: seq<Bytes>, slices: seq<Bytes>)
    requires |parts| == |slices|
    requires forall i :: 0 <= i < |parts| ==> |parts[i]| <= |slices[i]|
    ensures |Concat(parts)| <= |Concat(slices)|
    ensures |Concat(parts)| == |Concat(slices)| ==> forall i :: 0 <= i < |parts| ==> |parts[i]| == |slices[i]|
  {
    if parts != [] {
      ShorterParts(parts[..|parts| - 1], slices[..|parts| - 1]);
    }
  }
}
