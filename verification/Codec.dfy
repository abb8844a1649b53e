// Writing and reading are inverse: every header comes back from its encoding whatever
// follows it, and every header that can be read was written in the one canonical way.
module Codec {
  import opened Wrappers
  import opened Protocol
  import opened Marshal
  import opened Unmarshal

  lemma {:induction false} SegmentsRoundTrip(segments: seq<u16>)
    ensures DecodeSegments(EncodeSegments(segments)) == segments
  {
    if segments != [] {
      var bytes := EncodeSegments(segments);
      U16RoundTrip(segments[0]);
      assert bytes[2..] == EncodeSegments(segments[1..]);
      SegmentsRoundTrip(segments[1..]);
    }
  }

  lemma {:induction false} SegmentsCanonical(bytes: Bytes)
    requires |bytes| % 2 == 0
    ensures EncodeSegments(DecodeSegments(bytes)) == bytes
  {
    if bytes != [] {
      U16BytesRoundTrip(bytes[0], bytes[1]);
      assert DecodeSegments(bytes)[1..] == DecodeSegments(bytes[2..]);
      SegmentsCanonical(bytes[2..]);
    }
  }

  /** `len` is the number of bytes `write` appends, even for a domain whose length does not fit its field. */
  lemma EncodedLength(h: Header)
    ensures |EncodeHeader(h)| == h.Len()
  {
  }

  lemma DomainAddressRoundTrip(domain: DomainName, port: u16, rest: Bytes)
    requires |domain| <= 0xff
    ensures DecodeDomainAddress([|domain|] + domain + U16Bytes(port) + rest) == Got(DomainAddress(domain, port), rest)
  {
    var s := [|domain|] + domain + U16Bytes(port) + rest;
    U16RoundTrip(port);
    assert s[1..1 + |domain|] == domain;
    assert s[3 + |domain|..] == rest;
  }

  lemma AddressRoundTrip(a: Address, rest: Bytes)
    requires a.Encodable()
    ensures DecodeAddress(EncodeAddress(a) + rest) == Got(a, rest)
  {
    var s := EncodeAddress(a) + rest;
    match a {
      case NoAddress =>
        assert s[1..] == rest;
      case DomainAddress(domain, port) =>
        assert s[1..] == [|domain|] + domain + U16Bytes(port) + rest;
        DomainAddressRoundTrip(domain, port, rest);
      case Ipv4Address(ip, port) =>
        U16RoundTrip(port);
        assert s[1..5] == ip && s[5..7] == U16Bytes(port) && s[7..] == rest;
      case Ipv6Address(segments, port, _, _) =>
        U16RoundTrip(port);
        SegmentsRoundTrip(segments);
        assert s[1..17] == EncodeSegments(segments) && s[17..19] == U16Bytes(port) && s[19..] == rest;
    }
  }

  // An address of which the wire cannot hold everything is never read back.
  lemma UnencodableAddressIsLost(a: Address, s: Bytes)
    requires !a.Encodable()
    ensures DecodeAddress(s).Got? ==> DecodeAddress(s).value != a
  {
  }

  lemma PacketRoundTrip(p: PacketHeader, rest: Bytes)
    ensures DecodePacket(EncodePacket(p) + rest) == Got(p, rest) <==> p.addr.Encodable()
  {
    var s := EncodePacket(p) + rest;
    U16RoundTrip(p.assocId);
    U16RoundTrip(p.pktId);
    U16RoundTrip(p.size);
    assert s[8..] == EncodeAddress(p.addr) + rest;
    if p.addr.Encodable() {
      AddressRoundTrip(p.addr, rest);
    } else {
      UnencodableAddressIsLost(p.addr, s[8..]);
    }
  }

  lemma CommandRoundTrip(h: Header, rest: Bytes)
    ensures DecodeCommand(h.TypeCode(), EncodeCommand(h) + rest) == Got(h, rest) <==> h.Encodable()
  {
    var s := EncodeCommand(h) + rest;
    match h {
      case Authenticate(uuid, token) =>
        assert s[..16] == uuid && s[16..48] == token && s[48..] == rest;
      case Connect(addr) =>
        if h.Encodable() {
          AddressRoundTrip(addr, rest);
        } else {
          UnencodableAddressIsLost(addr, s);
        }
      case Packet(p) =>
        PacketRoundTrip(p, rest);
      case Dissociate(assocId) =>
        U16RoundTrip(assocId);
        assert s[2..] == rest;
      case Heartbeat =>
        assert s == rest;
    }
  }

  /** A header is read back unchanged, leaving exactly what follows it, if and only if its domain fits the length field and it has no IPv6 flow info or scope id to lose. */
  lemma RoundTrip(h: Header, rest: Bytes)
    ensures DecodeHeader(EncodeHeader(h) + rest) == Got(h, rest) <==> h.Encodable()
  {
    assert (EncodeHeader(h) + rest)[2..] == EncodeCommand(h) + rest;
    CommandRoundTrip(h, rest);
  }

  // Bytes appended to a part are appended to the whole.
  lemma AppendedLast(before: Bytes, part: Bytes, last: Bytes)
    ensures before + (part + last) == before + part + last
  {
  }

  // Bytes dropped from the end of a part, and others put there, are so in the whole.
  lemma ReplacedLast(before: Bytes, part: Bytes, n: nat, rest: Bytes)
    requires n <= |part|
    ensures (before + part)[..|before + part| - n] + rest == before + (part[..|part| - n] + rest)
    ensures (before + part)[|before + part| - n..] == part[|part| - n..]
  {
  }

  // A domain longer than its length field says is the shorter domain, two bytes that are read as the port, and more.
  lemma DomainInThree(domain: Bytes, n: nat)
    requires n + 2 <= |domain|
    ensures domain == domain[..n] + U16Bytes(U16FromBytes(domain[n], domain[n + 1])) + domain[n + 2..]
  {
    U16BytesRoundTrip(domain[n], domain[n + 1]);
  }

  lemma OverlongDomainWritten(a: Address)
    requires a.DomainAddress? && |a.domain| > 0xff && a.Readable()
    ensures EncodeAddress(a) == EncodeAddress(a.AsRead()) + a.Spill()
  {
    var n := |a.domain| % 0x100;
    DomainInThree(a.domain, n);
    var port := U16Bytes(U16FromBytes(a.domain[n], a.domain[n + 1]));
    Regrouped([TYPE_CODE_DOMAIN], [n], a.domain[..n], port, a.domain[n + 2..], U16Bytes(a.port));
  }

  lemma Regrouped(a: Bytes, b: Bytes, c: Bytes, d: Bytes, e: Bytes, f: Bytes)
    ensures a + (b + (c + d + e) + f) == a + (b + c + d) + (e + f)
  {
  }

  lemma AddressWritten(a: Address)
    requires a.Readable()
    ensures EncodeAddress(a) == EncodeAddress(a.AsRead()) + a.Spill()
    ensures a.AsRead().Encodable()
  {
    if a.DomainAddress? && |a.domain| > 0xff {
      OverlongDomainWritten(a);
    }
  }

  lemma PacketWritten(p: PacketHeader, a: Address, last: Bytes)
    requires EncodeAddress(p.addr) == EncodeAddress(a) + last
    ensures EncodePacket(p) == EncodePacket(p.(addr := a)) + last
  {
    var fields := U16Bytes(p.assocId) + U16Bytes(p.pktId) + [p.fragTotal, p.fragId] + U16Bytes(p.size);
    AppendedLast(fields, EncodeAddress(a), last);
  }

  lemma CommandWritten(h: Header)
    requires h.Readable()
    ensures EncodeCommand(h) == EncodeCommand(h.AsRead()) + h.Spill()
    ensures h.AsRead().Encodable() && h.AsRead().TypeCode() == h.TypeCode()
  {
    match h {
      case Connect(addr) =>
        AddressWritten(addr);
      case Packet(p) =>
        AddressWritten(p.addr);
        PacketWritten(p, p.addr.AsRead(), p.addr.Spill());
      case _ =>
    }
  }

  /** A readable header is written as the one it is read as, followed by what that leaves over. */
  lemma HeaderWritten(h: Header)
    requires h.Readable()
    ensures EncodeHeader(h) == EncodeHeader(h.AsRead()) + h.Spill()
    ensures h.AsRead().Encodable()
  {
    CommandWritten(h);
    AppendedLast([VERSION, h.TypeCode()], EncodeCommand(h.AsRead()), h.Spill());
  }

  lemma ReadableReads(h: Header, rest: Bytes)
    requires h.Readable()
    ensures DecodeHeader(EncodeHeader(h) + rest) == Got(h.AsRead(), h.Spill() + rest)
  {
    HeaderWritten(h);
    RoundTrip(h.AsRead(), h.Spill() + rest);
    AppendedLast(EncodeHeader(h.AsRead()), h.Spill(), rest);
  }

  lemma CutCharacterFails(a: Address, rest: Bytes)
    requires !a.Readable()
    ensures |a.Spill()| <= |EncodeAddress(a)|
    ensures DecodeAddress(EncodeAddress(a)[..|EncodeAddress(a)| - |a.Spill()|] + rest) == Failed(AddressParse)
  {
    var n := |a.domain| % 0x100;
    var front := EncodeAddress(a)[..|EncodeAddress(a)| - |a.Spill()|];
    assert front == [TYPE_CODE_DOMAIN, n] + a.domain[..n + 2];
    CutDomainFails(a.domain, n, front + rest, rest);
  }

  lemma CutDomainFails(domain: Bytes, n: u8, s: Bytes, rest: Bytes)
    requires n as int + 2 <= |domain| && !ValidUtf8(domain[..n])
    requires s == [TYPE_CODE_DOMAIN, n] + domain[..n + 2] + rest
    ensures DecodeAddress(s) == Failed(AddressParse)
  {
    assert s[1..] == [n] + domain[..n + 2] + rest;
    assert s[1..][1..1 + n] == domain[..n];
  }

  lemma UnreadablePacketFails(p: PacketHeader, rest: Bytes)
    requires !p.addr.Readable()
    ensures |p.addr.Spill()| <= |EncodePacket(p)|
    ensures DecodePacket(EncodePacket(p)[..|EncodePacket(p)| - |p.addr.Spill()|] + rest) == Failed(AddressParse)
  {
    CutCharacterFails(p.addr, rest);
    var fields := U16Bytes(p.assocId) + U16Bytes(p.pktId) + [p.fragTotal, p.fragId] + U16Bytes(p.size);
    ReplacedLast(fields, EncodeAddress(p.addr), |p.addr.Spill()|, rest);
    var front := EncodeAddress(p.addr)[..|EncodeAddress(p.addr)| - |p.addr.Spill()|];
    AddressFailureFails(fields, front + rest, AddressParse);
  }

  lemma AddressFailureFails(fields: Bytes, s: Bytes, error: UnmarshalError)
    requires |fields| == 8 && DecodeAddress(s) == Failed(error)
    ensures DecodePacket(fields + s) == Failed(error)
  {
    assert (fields + s)[8..] == s;
  }

  lemma UnreadableCommandFails(h: Header, rest: Bytes)
    requires !h.Readable()
    ensures |h.Spill()| <= |EncodeCommand(h)|
    ensures DecodeCommand(h.TypeCode(), EncodeCommand(h)[..|EncodeCommand(h)| - |h.Spill()|] + rest) == Failed(AddressParse)
  {
    match h {
      case Connect(addr) =>
        CutCharacterFails(addr, rest);
      case Packet(p) =>
        UnreadablePacketFails(p, rest);
    }
  }

  lemma UnreadableFails(h: Header, rest: Bytes)
    requires !h.Readable()
    ensures |h.Spill()| <= |EncodeHeader(h)|
    ensures DecodeHeader(EncodeHeader(h)[..|EncodeHeader(h)| - |h.Spill()|] + rest) == Failed(AddressParse)
  {
    UnreadableCommandFails(h, rest);
    CutCommandFails(EncodeHeader(h), h.TypeCode(), EncodeCommand(h), |h.Spill()|, rest);
  }

  lemma CutCommandFails(whole: Bytes, command: u8, s: Bytes, n: nat, rest: Bytes)
    requires whole == [VERSION, command] + s
    requires n <= |s| && DecodeCommand(command, s[..|s| - n] + rest) == Failed(AddressParse)
    ensures DecodeHeader(whole[..|whole| - n] + rest) == Failed(AddressParse)
  {
    ReplacedLast([VERSION, command], s, n, rest);
    CommandAfterVersion(command, s[..|s| - n] + rest);
  }

  lemma CommandAfterVersion(command: u8, s: Bytes)
    ensures DecodeHeader([VERSION, command] + s) == DecodeCommand(command, s)
  {
    assert ([VERSION, command] + s)[2..] == s;
  }

  lemma AddressSpillIsLast(a: Address)
    ensures |a.Spill()| <= |EncodeAddress(a)|
    ensures EncodeAddress(a)[|EncodeAddress(a)| - |a.Spill()|..] == a.Spill()
  {
    if a.DomainAddress? && |a.domain| > 0xff {
      var n := |a.domain| % 0x100;
      DomainInThree(a.domain, n);
      var port := U16Bytes(U16FromBytes(a.domain[n], a.domain[n + 1]));
      Regrouped([TYPE_CODE_DOMAIN], [n], a.domain[..n], port, a.domain[n + 2..], U16Bytes(a.port));
    }
  }

  lemma PacketSpillIsLast(p: PacketHeader)
    ensures |p.addr.Spill()| <= |EncodePacket(p)|
    ensures EncodePacket(p)[|EncodePacket(p)| - |p.addr.Spill()|..] == p.addr.Spill()
  {
    AddressSpillIsLast(p.addr);
    var fields := U16Bytes(p.assocId) + U16Bytes(p.pktId) + [p.fragTotal, p.fragId] + U16Bytes(p.size);
    ReplacedLast(fields, EncodeAddress(p.addr), |p.addr.Spill()|, []);
  }

  lemma CommandSpillIsLast(h: Header)
    ensures |h.Spill()| <= |EncodeCommand(h)|
    ensures EncodeCommand(h)[|EncodeCommand(h)| - |h.Spill()|..] == h.Spill()
  {
    if h.Connect? {
      AddressSpillIsLast(h.addr);
    } else if h.Packet? {
      PacketSpillIsLast(h.packet);
    }
  }

  lemma SpillIsLast(h: Header)
    ensures |h.Spill()| <= |EncodeHeader(h)|
    ensures EncodeHeader(h)[|EncodeHeader(h)| - |h.Spill()|..] == h.Spill()
  {
    CommandSpillIsLast(h);
    ReplacedLast([VERSION, h.TypeCode()], EncodeCommand(h), |h.Spill()|, []);
  }

  lemma UnreadableHeaderFails(h: Header, rest: Bytes)
    requires !h.Readable()
    ensures DecodeHeader(EncodeHeader(h) + rest) == Failed(AddressParse)
  {
    SpillIsLast(h);
    SplitAt(EncodeHeader(h), |EncodeHeader(h)| - |h.Spill()|, rest);
    UnreadableFails(h, h.Spill() + rest);
  }

  lemma SplitAt(s: Bytes, n: nat, rest: Bytes)
    requires n <= |s|
    ensures s + rest == s[..n] + (s[n..] + rest)
  {
  }

  /**
   * What any header is read as, whatever follows it: the address loses flow info and scope
   * id; a domain too long for its length field is read cut short with two of its bytes as
   * the port, and the rest of it is left in front of what follows.
   */
  lemma ReadsAsRead(h: Header, rest: Bytes)
    ensures DecodeHeader(EncodeHeader(h) + rest) ==
            if h.Readable() then Got(h.AsRead(), h.Spill() + rest) else Failed(AddressParse)
  {
    if h.Readable() {
      ReadableReads(h, rest);
    } else {
      UnreadableHeaderFails(h, rest);
    }
  }

  lemma DomainAddressCanonical(s: Bytes)
    requires DecodeDomainAddress(s).Got?
    ensures var d := DecodeDomainAddress(s);
            && d.value.DomainAddress? && d.value.Encodable()
            && s == [|d.value.domain|] + d.value.domain + U16Bytes(d.value.port) + d.rest
  {
    var n: int := s[0];
    U16BytesRoundTrip(s[1 + n], s[2 + n]);
    DomainInFour(s, n);
  }

  lemma DomainInFour(s: Bytes, n: nat)
    requires 3 + n <= |s|
    ensures s == [s[0]] + s[1..1 + n] + [s[1 + n], s[2 + n]] + s[3 + n..]
  {
  }

  lemma NoAddressCanonical(s: Bytes)
    requires DecodeAddress(s).Got? && DecodeAddress(s).value.NoAddress?
    ensures s == EncodeAddress(DecodeAddress(s).value) + DecodeAddress(s).rest
  {
  }

  lemma NamedAddressCanonical(s: Bytes)
    requires DecodeAddress(s).Got? && DecodeAddress(s).value.DomainAddress?
    ensures DecodeAddress(s).value.Encodable()
    ensures s == EncodeAddress(DecodeAddress(s).value) + DecodeAddress(s).rest
  {
    DomainAddressCanonical(s[1..]);
    var d := DecodeAddress(s);
    var body := [|d.value.domain|] + d.value.domain + U16Bytes(d.value.port);
    assert EncodeAddress(d.value) == [s[0]] + body;
    FirstAndRest(s, body, d.rest);
  }

  lemma FirstAndRest(s: Bytes, body: Bytes, rest: Bytes)
    requires s != [] && s[1..] == body + rest
    ensures s == [s[0]] + body + rest
  {
    assert s == [s[0]] + s[1..];
  }

  lemma Ipv4AddressCanonical(s: Bytes)
    requires DecodeAddress(s).Got? && DecodeAddress(s).value.Ipv4Address?
    ensures s == EncodeAddress(DecodeAddress(s).value) + DecodeAddress(s).rest
  {
    U16BytesRoundTrip(s[5], s[6]);
    assert s == [s[0]] + s[1..5] + [s[5], s[6]] + s[7..];
  }

  lemma Ipv6AddressCanonical(s: Bytes)
    requires DecodeAddress(s).Got? && DecodeAddress(s).value.Ipv6Address?
    ensures s == EncodeAddress(DecodeAddress(s).value) + DecodeAddress(s).rest
  {
    U16BytesRoundTrip(s[17], s[18]);
    SegmentsCanonical(s[1..17]);
    assert s == [s[0]] + s[1..17] + [s[17], s[18]] + s[19..];
  }

  lemma AddressCanonical(s: Bytes)
    requires DecodeAddress(s).Got?
    ensures DecodeAddress(s).value.Encodable()
    ensures s == EncodeAddress(DecodeAddress(s).value) + DecodeAddress(s).rest
  {
    match DecodeAddress(s).value {
      case NoAddress =>
        NoAddressCanonical(s);
      case DomainAddress(_, _) =>
        NamedAddressCanonical(s);
      case Ipv4Address(_, _) =>
        Ipv4AddressCanonical(s);
      case Ipv6Address(_, _, _, _) =>
        Ipv6AddressCanonical(s);
    }
  }

  lemma FieldsCanonical(s: Bytes)
    requires |s| >= 8
    ensures s == s[..8] + s[8..]
    ensures s[..8] == U16Bytes(U16FromBytes(s[0], s[1])) + U16Bytes(U16FromBytes(s[2], s[3])) + [s[4], s[5]]
                      + U16Bytes(U16FromBytes(s[6], s[7]))
  {
    U16BytesRoundTrip(s[0], s[1]);
    U16BytesRoundTrip(s[2], s[3]);
    U16BytesRoundTrip(s[6], s[7]);
  }

  lemma PacketFromAddress(s: Bytes, addr: Address, rest: Bytes)
    requires |s| >= 8 && DecodeAddress(s[8..]) == Got(addr, rest)
    requires s[8..] == EncodeAddress(addr) + rest
    ensures DecodePacket(s).Got? && DecodePacket(s).value.addr == addr && DecodePacket(s).rest == rest
    ensures s == EncodePacket(DecodePacket(s).value) + rest
  {
    FieldsCanonical(s);
    AppendedLast(s[..8], EncodeAddress(addr), rest);
  }

  lemma PacketCanonical(s: Bytes)
    requires DecodePacket(s).Got?
    ensures var d := DecodePacket(s);
            d.value.addr.Encodable() && s == EncodePacket(d.value) + d.rest
  {
    AddressCanonical(s[8..]);
    PacketFromAddress(s, DecodeAddress(s[8..]).value, DecodeAddress(s[8..]).rest);
  }

  lemma CommandCanonical(command: u8, s: Bytes)
    requires DecodeCommand(command, s).Got?
    ensures var d := DecodeCommand(command, s);
            d.value.TypeCode() == command && d.value.Encodable() && s == EncodeCommand(d.value) + d.rest
  {
    match DecodeCommand(command, s).value {
      case Authenticate(_, _) =>
        assert s == s[..16] + s[16..48] + s[48..];
      case Connect(_) =>
        AddressCanonical(s);
      case Packet(_) =>
        PacketCanonical(s);
      case Dissociate(_) =>
        U16BytesRoundTrip(s[0], s[1]);
      case Heartbeat =>
    }
  }

  /** Whatever can be read is the encoding of what was read, followed by the remainder. */
  lemma Canonical(s: Bytes)
    requires DecodeHeader(s).Got?
    ensures var d := DecodeHeader(s);
            d.value.Encodable() && s == EncodeHeader(d.value) + d.rest
  {
    CommandCanonical(s[1], s[2..]);
    assert s == [VERSION, s[1]] + s[2..];
    AppendedLast([VERSION, s[1]], EncodeCommand(DecodeHeader(s).value), DecodeHeader(s).rest);
  }

  /** A byte string can be read exactly when it starts with the encoding of some header. */
  lemma ReadableIffEncoded(s: Bytes)
    ensures DecodeHeader(s).Got? <==>
            exists h: Header, rest :: h.Encodable() && s == EncodeHeader(h) + rest
  {
    if DecodeHeader(s).Got? {
      Canonical(s);
      var d := DecodeHeader(s);
      assert d.value.Encodable() && s == EncodeHeader(d.value) + d.rest;
    }
    if h: Header, rest :| h.Encodable() && s == EncodeHeader(h) + rest {
      RoundTrip(h, rest);
    }
  }

  /** No header has two encodings and no encoding is a proper prefix of another. */
  lemma Unambiguous(h1: Header, rest1: Bytes, h2: Header, rest2: Bytes)
    requires h1.Encodable() && h2.Encodable()
    requires EncodeHeader(h1) + rest1 == EncodeHeader(h2) + rest2
    ensures h1 == h2 && rest1 == rest2
  {
    RoundTrip(h1, rest1);
    RoundTrip(h2, rest2);
  }

  lemma AddressTruncation(a: Address, n: nat)
    requires n + |a.Spill()| < |EncodeAddress(a)|
    ensures DecodeAddress(EncodeAddress(a)[..n]) == Failed(UnexpectedEof)
  {
  }

  lemma CutBehind(front: Bytes, last: Bytes, n: nat)
    requires |front| <= n <= |front + last|
    ensures (front + last)[..n] == front + last[..n - |front|]
  {
  }

  lemma PacketTruncation(p: PacketHeader, n: nat)
    requires n + |p.addr.Spill()| < |EncodePacket(p)|
    ensures DecodePacket(EncodePacket(p)[..n]) == Failed(UnexpectedEof)
  {
    if n >= 8 {
      var fields := U16Bytes(p.assocId) + U16Bytes(p.pktId) + [p.fragTotal, p.fragId] + U16Bytes(p.size);
      CutBehind(fields, EncodeAddress(p.addr), n);
      AddressTruncation(p.addr, n - 8);
      AddressFailureFails(fields, EncodeAddress(p.addr)[..n - 8], UnexpectedEof);
    }
  }

  lemma CommandTruncation(h: Header, n: nat)
    requires n + |h.Spill()| < |EncodeCommand(h)|
    ensures DecodeCommand(h.TypeCode(), EncodeCommand(h)[..n]) == Failed(UnexpectedEof)
  {
    match h {
      case Connect(addr) =>
        AddressTruncation(addr, n);
      case Packet(p) =>
        PacketTruncation(p, n);
      case _ =>
    }
  }

  lemma ShortHeaderFails(h: Header, n: nat)
    requires n + |h.Spill()| < |EncodeHeader(h)|
    ensures DecodeHeader(EncodeHeader(h)[..n]) == Failed(UnexpectedEof)
  {
    if n >= 2 {
      assert EncodeHeader(h)[..n] == [VERSION, h.TypeCode()] + EncodeCommand(h)[..n - 2];
      CommandTruncation(h, n - 2);
    }
  }

  lemma LongEnoughReads(h: Header, n: nat)
    requires h.Readable() && n <= |EncodeHeader(h)| <= n + |h.Spill()|
    ensures DecodeHeader(EncodeHeader(h)[..n]).Got?
  {
    HeaderWritten(h);
    var front := EncodeHeader(h.AsRead());
    EncodableReads(h.AsRead(), h.Spill()[..n - |front|]);
    PrefixReads(front, h.Spill(), n);
  }

  lemma PrefixReads(front: Bytes, last: Bytes, n: nat)
    requires |front| <= n <= |front + last|
    requires DecodeHeader(front + last[..n - |front|]).Got?
    ensures DecodeHeader((front + last)[..n]).Got?
  {
    CutBehind(front, last, n);
  }

  lemma EncodableReads(h: Header, rest: Bytes)
    requires h.Encodable()
    ensures DecodeHeader(EncodeHeader(h) + rest).Got?
  {
    RoundTrip(h, rest);
  }

  lemma LongEnoughFails(h: Header, n: nat)
    requires !h.Readable() && n <= |EncodeHeader(h)| <= n + |h.Spill()|
    ensures DecodeHeader(EncodeHeader(h)[..n]) == Failed(AddressParse)
  {
    SpillIsLast(h);
    var m := |EncodeHeader(h)| - |h.Spill()|;
    CutInTwo(EncodeHeader(h), m, n);
    UnreadableFails(h, EncodeHeader(h)[m..n]);
  }

  lemma CutInTwo(s: Bytes, m: nat, n: nat)
    requires m <= n <= |s|
    ensures s[..n] == s[..m] + s[m..n]
  {
  }

  /** A header cut anywhere is reported as the end of the stream exactly when something that reading needs is cut off. */
  lemma TruncationIsDetected(h: Header, n: nat)
    requires n <= |EncodeHeader(h)|
    ensures DecodeHeader(EncodeHeader(h)[..n]) == Failed(UnexpectedEof) <==> n + |h.Spill()| < |EncodeHeader(h)|
  {
    if n + |h.Spill()| < |EncodeHeader(h)| {
      ShortHeaderFails(h, n);
    } else if h.Readable() {
      LongEnoughReads(h, n);
    } else {
      LongEnoughFails(h, n);
    }
  }

  /** The byte layout of a `Packet` command, with every field at its place and big-endian. */
  lemma PacketLayout(p: PacketHeader)
    ensures var b := EncodeHeader(Packet(p));
            && |b| >= 11
            && b[0] == 0x05 && b[1] == 0x02
            && b[2] as int * 0x100 + b[3] as int == p.assocId
            && b[4] as int * 0x100 + b[5] as int == p.pktId
            && b[6] == p.fragTotal
            && b[7] == p.fragId
            && b[8] as int * 0x100 + b[9] as int == p.size
            && b[10..] == EncodeAddress(p.addr)
  {
  }

  /** The byte layout of the other commands: version, command type, fields. */
  lemma CommandLayout(h: Header)
    ensures match h
            case Authenticate(uuid, token) => EncodeHeader(h) == [0x05, 0x00] + uuid + token
            case Connect(addr) => EncodeHeader(h) == [0x05, 0x01] + EncodeAddress(addr)
            case Packet(p) => EncodeHeader(h)[..2] == [0x05, 0x02]
            case Dissociate(assocId) => EncodeHeader(h) == [0x05, 0x03, assocId / 0x100, assocId % 0x100]
            case Heartbeat => EncodeHeader(h) == [0x05, 0x04]
  {
  }

  /** The byte layout of an address: type, body, big-endian port. */
  lemma AddressLayout(a: Address)
    ensures var b := EncodeAddress(a);
            match a
            case NoAddress => b == [0xff]
            case DomainAddress(domain, port) =>
              && |b| == 4 + |domain|
              && b[0] == 0x00
              && b[1] as int == |domain| % 0x100
              && b[2..2 + |domain|] == domain
              && b[2 + |domain|] as int * 0x100 + b[3 + |domain|] as int == port
            case Ipv4Address(ip, port) =>
              |b| == 7 && b[0] == 0x01 && b[1..5] == ip && b[5] as int * 0x100 + b[6] as int == port
            case Ipv6Address(segments, port, _, _) =>
              && |b| == 19
              && b[0] == 0x02
              && (forall i :: 0 <= i < 8 ==> b[1 + 2 * i] as int * 0x100 + b[2 + 2 * i] as int == segments[i])
              && b[17] as int * 0x100 + b[18] as int == port
  {
    if a.Ipv6Address? {
      var b := EncodeAddress(a);
      assert b[1..17] == EncodeSegments(a.segments);
      forall i | 0 <= i < 8
        ensures b[1 + 2 * i] as int * 0x100 + b[2 + 2 * i] as int == a.segments[i]
      {
        SegmentAt(a.segments, i);
        assert b[1 + 2 * i] == b[1..17][2 * i] && b[2 + 2 * i] == b[1..17][2 * i + 1];
      }
    }
  }

  // The bytes after the first segment are those of the rest.
  lemma SegmentsShift(segments: seq<u16>, j: nat)
    requires segments != [] && j < |EncodeSegments(segments[1..])|
    ensures EncodeSegments(segments)[j + 2] == EncodeSegments(segments[1..])[j]
  {
  }

  lemma {:induction false} SegmentAt(segments: seq<u16>, i: nat)
    requires i < |segments|
    ensures var b := EncodeSegments(segments);
            b[2 * i] as int * 0x100 + b[2 * i + 1] as int == segments[i]
  {
    if i > 0 {
      SegmentsShift(segments, 2 * (i - 1));
      SegmentsShift(segments, 2 * (i - 1) + 1);
      SegmentAt(segments[1..], i - 1);
    }
  }

  // Where the address of a command starts, if it has one.
  function AddressOffset(s: Bytes): Option<nat> {
    if |s| < 2 || s[0] != 0x05 then None
    else if s[1] == 0x01 && |s| > 2 then Some(2)
    else if s[1] == 0x02 && |s| > 10 then Some(10)
    else None
  }

  lemma AddressErrors(s: Bytes)
    requires s != []
    ensures DecodeAddress(s).Failed? ==> !DecodeAddress(s).error.InvalidVersion? && !DecodeAddress(s).error.InvalidCommand?
    ensures forall c: u8 :: DecodeAddress(s) == Failed(InvalidAddressType(c)) <==> s[0] == c && 0x02 < c < 0xff
    ensures DecodeAddress(s) == Failed(AddressParse) <==>
            && s[0] == 0x00 && |s| >= 2 && |s| >= 4 + s[1] as int && !ValidUtf8(s[2..2 + s[1] as int])
  {
    if s[0] == 0x00 && |s| >= 2 && |s| >= 4 + s[1] as int {
      assert s[1..][1..1 + s[1] as int] == s[2..2 + s[1] as int];
    }
  }

  lemma AddressIsAt(s: Bytes)
    requires AddressOffset(s).Some?
    ensures var d := DecodeAddress(s[AddressOffset(s).value..]);
            && (d.Failed? ==> DecodeHeader(s) == Failed(d.error))
            && (d.Got? ==> DecodeHeader(s).Got?)
  {
    if s[1] == 0x02 {
      assert s[2..][8..] == s[10..];
    }
  }

  /** Which byte strings are refused with which error; what is neither refused so nor readable ended too early. */
  lemma ReadErrors(s: Bytes)
    ensures forall v: u8 :: DecodeHeader(s) == Failed(InvalidVersion(v)) <==> s != [] && s[0] == v && v != 0x05
    ensures forall c: u8 :: DecodeHeader(s) == Failed(InvalidCommand(c)) <==>
              |s| >= 2 && s[0] == 0x05 && s[1] == c && c > 0x04
    ensures forall c: u8 :: DecodeHeader(s) == Failed(InvalidAddressType(c)) <==>
              AddressOffset(s).Some? && s[AddressOffset(s).value] == c && 0x02 < c < 0xff
    ensures DecodeHeader(s) == Failed(AddressParse) <==>
            && AddressOffset(s).Some?
            && var a := s[AddressOffset(s).value..];
               a[0] == 0x00 && |a| >= 2 && |a| >= 4 + a[1] as int && !ValidUtf8(a[2..2 + a[1] as int])
  {
    if AddressOffset(s).Some? {
      AddressIsAt(s);
      AddressErrors(s[AddressOffset(s).value..]);
    }
  }

  lemma AddressExtends(s: Bytes, more: Bytes)
    ensures match DecodeAddress(s)
            case Got(a, rest) => DecodeAddress(s + more) == Got(a, rest + more)
            case Failed(UnexpectedEof) => true
            case Failed(e) => DecodeAddress(s + more) == Failed(e)
  {
    match DecodeAddress(s) {
      case Got(a, rest) =>
        AddressCanonical(s);
        AppendedLast(EncodeAddress(a), rest, more);
        AddressRoundTrip(a, rest + more);
      case Failed(_) =>
        if s != [] {
          AddressErrors(s);
          AddressErrors(s + more);
          if |s| >= 2 && |s| >= 4 + s[1] as int {
            assert (s + more)[2..2 + s[1] as int] == s[2..2 + s[1] as int];
          }
        }
    }
  }

  /** Bytes that arrive later change neither what has been read nor an error, other than that there were too few. */
  lemma ReadingIsStable(s: Bytes, more: Bytes)
    ensures match DecodeHeader(s)
            case Got(h, rest) => DecodeHeader(s + more) == Got(h, rest + more)
            case Failed(UnexpectedEof) => true
            case Failed(e) => DecodeHeader(s + more) == Failed(e)
  {
    match DecodeHeader(s) {
      case Got(h, rest) =>
        Canonical(s);
        AppendedLast(EncodeHeader(h), rest, more);
        RoundTrip(h, rest + more);
      case Failed(_) =>
        ReadErrors(s);
        ReadErrors(s + more);
        if AddressOffset(s).Some? {
          var n := AddressOffset(s).value;
          assert (s + more)[n..] == s[n..] + more;
          AddressIsAt(s);
          AddressIsAt(s + more);
          AddressExtends(s[n..], more);
        }
    }
  }
}
