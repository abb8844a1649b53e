// Splitting an outgoing packet into numbered fragments.
module Fragmentation {
  import opened Wrappers
  import opened Protocol
  import opened Marshal
  import opened Codec
  import opened FragmentArithmetic

  /** A packet to be sent, with the largest size a fragment may have on the wire. */
  datatype Outgoing = Outgoing(assocId: u16, pktId: u16, addr: Address, maxPktSize: nat, payload: Bytes)
  {
    // Payload bytes that fit beside the header that carries the address, and beside one without.

    function First(): int {
      maxPktSize - Packet(PacketHeader(0, 0, 0, 0, 0, addr)).Len()
    }

    function Rest(): int {
      maxPktSize - Packet(PacketHeader(0, 0, 0, 0, 0, NoAddress)).Len()
    }

    /** No subtraction goes below zero and nothing is divided by zero. */
    predicate Defined() {
      First() >= 0 && Rest() >= 0 && (First() < |payload| ==> Rest() > 0)
    }

    predicate Exact()
      requires Defined()
    {
      FragmentArithmetic.Exact(|payload|, First(), Rest())
    }

    function Count(): nat
      requires Defined()
    {
      FragmentArithmetic.Count(|payload|, First(), Rest())
    }

    /** The number of fragments as it is sent: cast to one byte. */
    function Total(): u8
      requires Defined()
    {
      Count() % 0x100
    }

    function Start(k: nat): nat
      requires Defined()
    {
      FragmentArithmetic.Start(|payload|, First(), Rest(), k)
    }

    function AddressOf(k: nat): Address {
      if k == 0 then addr else NoAddress
    }

    /** The payload slice of fragment `k`. */
    function Slice(k: nat): Bytes
      requires Defined()
    {
      StartMonotone(|payload|, First(), Rest(), k, k + 1);
      payload[Start(k)..Start(k + 1)]
    }

    /** The header of fragment `k`; its size field is the slice length cast to two bytes. */
    function FragHeader(k: u8): PacketHeader
      requires Defined()
    {
      PacketHeader(assocId, pktId, Total(), k, |Slice(k)| % 0x1_0000, AddressOf(k))
    }

    /** The first `n` fragments start inside the payload. */
    ghost predicate StartsInside(n: nat)
      requires Defined()
    {
      forall k: nat :: k < n ==> Start(k) < |payload|
    }

    /** Every fragment of the whole iteration starts inside the payload. */
    ghost predicate StaysInBounds()
      requires Defined()
    {
      StartsInside(Total())
    }

    function Slices(n: nat): (slices: seq<Bytes>)
      requires Defined()
      ensures |slices| == n
    {
      if n == 0 then [] else Slices(n - 1) + [Slice(n - 1)]
    }

    /** What a receiver takes from fragment `k`: as much as its size field covers, after what reading the address has left over. */
    function Part(k: nat): Bytes
      requires Defined()
    {
      (AddressOf(k).Spill() + Slice(k))[..|Slice(k)| % 0x1_0000]
    }

    function Parts(n: nat): seq<Bytes>
      requires Defined()
    {
      seq(n, k requires 0 <= k < n => Part(k))
    }

    /** The payload that all fragments carry together. */
    function Carried(): Bytes
      requires Defined()
    {
      Concat(Parts(Total()))
    }

    function SliceLengths(n: nat): seq<nat>
      requires Defined()
    {
      seq(n, k requires 0 <= k < n => |Slice(k)|)
    }

    /** What is sent for fragment `k`: the encoded header followed by the slice. */
    function Datagram(k: u8): Bytes
      requires Defined()
    {
      EncodeHeader(Packet(FragHeader(k))) + Slice(k)
    }
  }

  /** What one step of the iterator comes to. */
  datatype Step = Fragment(header: PacketHeader, data: Bytes) | Exhausted | OutOfBounds

  /** Iterator over the fragments of a packet. */
  class Fragments {
    const assocId: u16
    const pktId: u16
    var addr: Address
    const maxPktSize: nat
    const fragTotal: u8
    var nextFragId: u8
    var nextFragStart: nat
    const payload: Bytes

    // The packet as it was before the address was taken out.
    ghost const origin: Outgoing

    ghost predicate Valid()
      reads this
    {
      && origin == Outgoing(assocId, pktId, origin.addr, maxPktSize, payload)
      && origin.Defined()
      && fragTotal == origin.Total()
      && nextFragId <= fragTotal
      && nextFragStart == origin.Start(nextFragId)
      && addr == origin.AddressOf(nextFragId)
    }

    constructor (p: Outgoing)
      requires p.Defined()
      ensures Valid() && origin == p && nextFragId == 0
    {
      var firstFragSize := p.maxPktSize - Packet(PacketHeader(0, 0, 0, 0, 0, p.addr)).Len();
      var fragSizeAddrNone := p.maxPktSize - Packet(PacketHeader(0, 0, 0, 0, 0, NoAddress)).Len();
      assocId, pktId, addr := p.assocId, p.pktId, p.addr;
      maxPktSize, payload := p.maxPktSize, p.payload;
      fragTotal :=
        if firstFragSize < |p.payload| then
          (1 + (|p.payload| - firstFragSize) / fragSizeAddrNone + 1) % 0x100
        else
          1;
      nextFragId, nextFragStart := 0, 0;
      origin := p;
      CountFormula(|p.payload|, p.First(), p.Rest());
    }

    method Next() returns (r: Step)
      requires Valid()
      modifies this
      ensures r.OutOfBounds? || Valid()
      ensures r.Exhausted? <==> old(nextFragId) == fragTotal
      ensures r.Exhausted? ==> nextFragId == old(nextFragId)
      ensures r.OutOfBounds? <==>
              old(nextFragId) < fragTotal && origin.Start(old(nextFragId)) == |payload|
      ensures r.Fragment? ==>
                && origin.Start(old(nextFragId)) < |payload|
                && r == Fragment(origin.FragHeader(old(nextFragId)), origin.Slice(old(nextFragId)))
                && nextFragId == old(nextFragId) + 1
    {
      if nextFragId < fragTotal {
        var taken := addr;
        addr := NoAddress;
        var payloadSize := maxPktSize - Packet(PacketHeader(0, 0, 0, 0, 0, taken)).Len();
        var nextFragEnd := Min(nextFragStart + payloadSize, |payload|);
        var header :=
          PacketHeader(assocId, pktId, fragTotal, nextFragId, (nextFragEnd - nextFragStart) % 0x1_0000, taken);
        if nextFragStart >= |payload| {
          return OutOfBounds;
        }
        r := Fragment(header, payload[nextFragStart..nextFragEnd]);
        nextFragId := nextFragId + 1;
        nextFragStart := nextFragEnd;
      } else {
        r := Exhausted;
      }
    }

    /** The reported length is that of the whole packet, so it counts what is left only before the first step. */
    method Len() returns (n: nat)
      requires Valid()
      ensures n == origin.Total()
      ensures n == fragTotal - nextFragId <==> nextFragId == 0
    {
      n := fragTotal;
    }
  }

  /** Starts the iterator; sizes for which a subtraction goes below zero or a division is by zero abort. */
  method IntoFragments(p: Outgoing) returns (r: Option<Fragments>)
    ensures r.Some? <==> p.Defined()
    ensures r.Some? ==>
              fresh(r.value) && r.value.Valid() && r.value.origin == p && r.value.nextFragId == 0
  {
    if p.maxPktSize < Packet(PacketHeader(0, 0, 0, 0, 0, p.addr)).Len()
       || p.maxPktSize < Packet(PacketHeader(0, 0, 0, 0, 0, NoAddress)).Len() {
      return None;
    }
    if p.First() < |p.payload| && p.Rest() == 0 {
      return None;
    }
    var fragments := new Fragments(p);
    r := Some(fragments);
  }

  /**
   * Fragmenting is defined exactly when the header of the first fragment fits the size limit
   * and, if the payload does not fit beside it, a header without an address (11 bytes) leaves
   * room for payload.
   */
  lemma DefinedIff(p: Outgoing, h: PacketHeader)
    requires h.addr == p.addr
    ensures p.Defined() <==>
            && |EncodeHeader(Packet(h))| <= p.maxPktSize
            && (|EncodeHeader(Packet(h))| + |p.payload| > p.maxPktSize ==> p.maxPktSize > 11)
  {
    EncodedLength(Packet(h));
  }

  lemma StartsAscend(p: Outgoing, j: nat, k: nat)
    requires p.Defined() && j <= k
    ensures p.Start(j) <= p.Start(k)
  {
    StartMonotone(|p.payload|, p.First(), p.Rest(), j, k);
  }

  lemma PrefixAndSlice(s: Bytes, a: nat, b: nat)
    requires a <= b <= |s|
    ensures s[..a] + s[a..b] == s[..b]
  {
  }

  /** A fragment that starts past the payload is the last one of its packet. */
  lemma OutsideOnlyAtLast(p: Outgoing, k: nat)
    requires p.Defined() && k < p.Total() as int && p.Start(k) == |p.payload|
    ensures !p.StaysInBounds() && k == p.Total() as int - 1
  {
    FragmentArithmetic.OutsideOnlyAtLast(|p.payload|, p.First(), p.Rest(), k);
  }

  lemma SlicesStep(p: Outgoing, n: nat)
    requires p.Defined()
    ensures p.Slices(n + 1) == p.Slices(n) + [p.Slice(n)]
    ensures p.payload[..p.Start(n)] + p.Slice(n) == p.payload[..p.Start(n + 1)]
  {
    StartsAscend(p, n, n + 1);
    PrefixAndSlice(p.payload, p.Start(n), p.Start(n + 1));
  }

  lemma {:induction false} SlicesConcat(p: Outgoing, n: nat)
    requires p.Defined()
    ensures Concat(p.Slices(n)) == p.payload[..p.Start(n)]
  {
    if n > 0 {
      SlicesConcat(p, n - 1);
      ConcatAppend(p.Slices(n - 1), p.Slice(n - 1));
      SlicesStep(p, n - 1);
    }
  }

  lemma {:induction false} SliceAt(p: Outgoing, n: nat, k: nat)
    requires p.Defined() && k < n
    ensures p.Slices(n)[k] == p.Slice(k)
  {
    if k < n - 1 {
      SliceAt(p, n - 1, k);
    }
  }

  lemma InBoundsMeansInside(p: Outgoing)
    requires p.Defined()
    ensures p.StaysInBounds() <==> InBounds(|p.payload|, p.First(), p.Rest(), p.Total())
  {
    assert forall k: nat :: p.Start(k) == FragmentArithmetic.Start(|p.payload|, p.First(), p.Rest(), k);
  }

  /**
   * The iteration as it runs never indexes past the payload if and only if the lengths are
   * exact or the number of fragments does not fit in one byte.
   */
  lemma StaysInBoundsIff(p: Outgoing)
    requires p.Defined()
    ensures p.StaysInBounds() <==> p.Exact() || p.Count() > 0xff
  {
    InBoundsMeansInside(p);
    CastInBoundsIff(|p.payload|, p.First(), p.Rest());
  }

  /** An empty payload is indexed out of bounds at its only fragment. */
  lemma EmptyPayloadIsOutOfBounds() returns (p: Outgoing)
    ensures p.Defined() && p.payload == [] && p.Total() == 1 && !p.StaysInBounds()
  {
    p := Outgoing(0, 0, Ipv4Address([127, 0, 0, 1], 53), 1200, []);
    StaysInBoundsIff(p);
  }

  /** A payload that fills the first fragment and one later one is counted as three fragments, of which the third is indexed out of bounds. */
  lemma FullFragmentsAreOutOfBounds() returns (p: Outgoing)
    ensures p.Defined() && |p.payload| == p.First() + p.Rest() && p.Total() == 3 && !p.StaysInBounds()
  {
    p := Outgoing(0, 0, Ipv4Address([127, 0, 0, 1], 53), 1200, seq(1183 + 1189, _ => 0));
    assert p.Count() == 1 + CountLater(1189, 1189) == 3;
    StaysInBoundsIff(p);
  }

  /** A count that does not fit in one byte is never out of bounds: what it sends is a proper beginning of the payload, which is nothing at all when the cast total is 0. */
  lemma OverlongIsCut(p: Outgoing)
    requires p.Defined() && p.Count() > 0xff
    ensures p.StaysInBounds()
    ensures Concat(p.Slices(p.Total())) == p.payload[..p.Start(p.Total())]
    ensures p.Start(p.Total()) < |p.payload|
    ensures p.Total() == 0 ==> p.Slices(p.Total()) == []
  {
    StaysInBoundsIff(p);
    SlicesConcat(p, p.Total());
    TooFew(|p.payload|, p.First(), p.Rest(), p.Total());
  }

  /** A payload counted as 256 fragments, of which none is sent. */
  lemma OverlongSendsNothing() returns (p: Outgoing)
    ensures p.Defined() && p.payload != [] && p.Count() == 0x100 && p.Total() == 0 && p.StaysInBounds()
  {
    p := Outgoing(0, 0, Ipv4Address([127, 0, 0, 1], 53), 17, seq(254 * 6, _ => 0));
    CountFormula(|p.payload|, p.First(), p.Rest());
  }

  /**
   * The whole iteration stays in bounds and its slices make up the payload, if and only
   * if the lengths are exact and the number of fragments fits in one byte.
   */
  lemma PartitionIffExact(p: Outgoing)
    requires p.Defined()
    ensures p.StaysInBounds() && Concat(p.Slices(p.Total())) == p.payload
            <==> p.Exact() && p.Count() <= 0xff
  {
    CoversIffExact(|p.payload|, p.First(), p.Rest());
    SlicesConcat(p, p.Total());
    InBoundsMeansInside(p);
    if Concat(p.Slices(p.Total())) == p.payload {
      assert |p.payload[..p.Start(p.Total())]| == p.Start(p.Total());
    }
  }

  lemma {:induction false} SumOfSlices(p: Outgoing, n: nat)
    requires p.Defined()
    ensures Sum(p.SliceLengths(n)) == p.Start(n)
  {
    if n > 0 {
      assert p.SliceLengths(n)[..n - 1] == p.SliceLengths(n - 1);
      SumOfSlices(p, n - 1);
      StartsAscend(p, n - 1, n);
    }
  }

  /** The fragments themselves are one way of carrying the payload within the size limit. */
  lemma FragmentsCarry(p: Outgoing)
    requires p.Defined() && p.Exact() && p.Count() <= 0xff
    ensures Covers(p.SliceLengths(p.Total()), |p.payload|, p.First(), p.Rest())
  {
    CoversIffExact(|p.payload|, p.First(), p.Rest());
    SumOfSlices(p, p.Total());
  }

  /** In its domain the program uses as few fragments as any way of carrying the payload within the size limit. */
  lemma FewestFragments(p: Outgoing, sizes: seq<nat>)
    requires p.Defined() && p.Exact() && p.Count() <= 0xff
    requires Covers(sizes, |p.payload|, p.First(), p.Rest())
    ensures p.Total() as int <= |sizes|
  {
    FewerNeverCover(|p.payload|, p.First(), p.Rest(), sizes);
  }

  // Every fragment but the last has all the room there is.
  lemma FullSlice(p: Outgoing, k: nat)
    requires p.Defined() && k + 1 < p.Total() as int
    ensures p.Start(k + 1) == p.Start(k) + if k == 0 then p.First() else p.Rest()
  {
    FullStep(|p.payload|, p.First(), p.Rest(), k);
  }

  /** No datagram that leaves exceeds the size limit, every one but the last fills it, and none but the first can be without payload. */
  lemma DatagramSizes(p: Outgoing, k: u8)
    requires p.Defined() && k < p.Total() && p.Start(k) < |p.payload|
    ensures |p.Datagram(k)| <= p.maxPktSize
    ensures k < p.Total() - 1 ==> |p.Datagram(k)| == p.maxPktSize
    ensures k > 0 || p.First() > 0 ==> |p.Slice(k)| > 0
  {
    EncodedLength(Packet(p.FragHeader(k)));
    if k < p.Total() - 1 {
      FullSlice(p, k);
    }
  }

  /** The largest slice that is sent of a packet, from its lengths alone. */
  function LargestSlice(p: Outgoing): nat
    requires p.Defined()
  {
    if p.Total() == 0 then 0
    else if p.Total() == 1 || Min(p.Rest(), |p.payload| - p.First()) <= p.First() then Min(p.First(), |p.payload|)
    else Min(p.Rest(), |p.payload| - p.First())
  }

  // The sizes of the first two slices, of which one is the largest.
  lemma LeadingSlices(p: Outgoing)
    requires p.Defined()
    ensures |p.Slice(0)| == Min(p.First(), |p.payload|)
    ensures p.Total() > 1 ==> p.First() < |p.payload|
    ensures p.Total() > 1 ==> |p.Slice(1)| == Min(p.Rest(), |p.payload| - p.First())
  {
  }

  lemma SliceAtMostLargest(p: Outgoing, k: u8)
    requires p.Defined() && k < p.Total()
    ensures |p.Slice(k)| <= LargestSlice(p)
  {
    LeadingSlices(p);
    if k > 0 {
      StartsAscend(p, 1, k);
    }
  }

  lemma SizeIffSliceFits(p: Outgoing, k: u8)
    requires p.Defined()
    ensures p.FragHeader(k).size as int == |p.Slice(k)| <==> |p.Slice(k)| <= 0xffff
  {
    TwoByteCast(|p.Slice(k)|);
  }

  lemma SizeField(p: Outgoing, k: u8)
    requires p.Defined()
    ensures p.FragHeader(k).size as int == |p.Slice(k)| % 0x1_0000
  {
  }

  lemma PartInRest(p: Outgoing, k: nat)
    requires p.Defined()
    ensures var rest, size := p.AddressOf(k).Spill() + p.Slice(k), |p.Slice(k)| % 0x1_0000;
            size <= |rest| && p.Part(k) == rest[..size]
  {
  }

  lemma TwoByteCast(n: nat)
    ensures n % 0x1_0000 == n <==> n <= 0xffff
  {
  }

  lemma LargestIsASlice(p: Outgoing) returns (k: u8)
    requires p.Defined() && p.Total() > 0
    ensures k < p.Total() && LargestSlice(p) == |p.Slice(k)|
  {
    LeadingSlices(p);
    k := if LargestSlice(p) == |p.Slice(0)| then 0 else 1;
  }

  /** No slice exceeds its two-byte size field. */
  predicate Uncut(p: Outgoing, n: nat)
    requires p.Defined()
  {
    forall k :: 0 <= k < n ==> |p.Slice(k)| <= 0xffff
  }

  lemma UncutIffLargestFits(p: Outgoing)
    requires p.Defined()
    ensures Uncut(p, p.Total()) <==> LargestSlice(p) <= 0xffff
  {
    if p.Total() > 0 {
      var largest := LargestIsASlice(p);
    }
    forall k: nat | k < p.Total() as int
      ensures |p.Slice(k)| <= LargestSlice(p)
    {
      SliceAtMostLargest(p, k);
    }
  }

  /** Every size field equals the length of its slice, if and only if the largest slice fits in two bytes. */
  lemma SizesIffLargestFits(p: Outgoing)
    requires p.Defined()
    ensures (forall k: u8 :: k < p.Total() ==> p.FragHeader(k).size as int == |p.Slice(k)|)
            <==> LargestSlice(p) <= 0xffff
  {
    UncutIffLargestFits(p);
    forall k: nat | k < p.Total() as int
      ensures p.FragHeader(k).size as int == |p.Slice(k)| <==> |p.Slice(k)| <= 0xffff
    {
      SizeIffSliceFits(p, k);
    }
  }

  lemma PartBesideSlice(p: Outgoing, n: nat, k: nat)
    requires p.Defined() && k < n
    ensures |p.Parts(n)[k]| <= |p.Slices(n)[k]|
    ensures |p.Parts(n)[k]| == |p.Slices(n)[k]| <==> |p.Slice(k)| <= 0xffff
    ensures p.addr.DomainFits() && |p.Slice(k)| <= 0xffff ==> p.Parts(n)[k] == p.Slices(n)[k]
  {
    SliceAt(p, n, k);
    TwoByteCast(|p.Slice(k)|);
  }

  lemma PartsAreSlicesIff(p: Outgoing, n: nat)
    requires p.Defined()
    ensures |Concat(p.Parts(n))| <= |Concat(p.Slices(n))|
    ensures |Concat(p.Parts(n))| == |Concat(p.Slices(n))| ==> Uncut(p, n)
    ensures p.addr.DomainFits() && Uncut(p, n) ==> p.Parts(n) == p.Slices(n)
  {
    forall k: nat | k < n
      ensures |p.Parts(n)[k]| <= |p.Slices(n)[k]|
      ensures |p.Parts(n)[k]| == |p.Slices(n)[k]| <==> |p.Slice(k)| <= 0xffff
      ensures p.addr.DomainFits() && |p.Slice(k)| <= 0xffff ==> p.Parts(n)[k] == p.Slices(n)[k]
    {
      PartBesideSlice(p, n, k);
    }
    ShorterParts(p.Parts(n), p.Slices(n));
    assert p.addr.DomainFits() && Uncut(p, n) ==> p.Parts(n) == p.Slices(n);
  }

  /** With a domain that fits, the fragments carry the payload up to where the last of them ends, if and only if no slice exceeds its size field. */
  lemma CarriedIffUncut(p: Outgoing)
    requires p.Defined()
    ensures |p.Carried()| <= p.Start(p.Total())
    ensures p.Carried() == p.payload[..p.Start(p.Total())] ==> Uncut(p, p.Total())
    ensures p.addr.DomainFits() && Uncut(p, p.Total()) ==> p.Carried() == p.payload[..p.Start(p.Total())]
  {
    PartsAreSlicesIff(p, p.Total());
    SlicesConcat(p, p.Total());
  }

  /** What the fragments carry is the whole payload, with the address it was sent to, if and only if the lengths are exact, the number of fragments fits in one byte, the largest slice in two, and nothing of the address is lost. */
  lemma CarriesPayloadIff(p: Outgoing)
    requires p.Defined() && p.StaysInBounds()
    ensures p.Carried() == p.payload && p.addr.AsRead() == p.addr
            <==> p.Exact() && p.Count() <= 0xff && LargestSlice(p) <= 0xffff && p.addr.Encodable()
  {
    ReadUnchangedFits(p.addr);
    CarriedIffUncut(p);
    SlicesConcat(p, p.Total());
    PartitionIffExact(p);
    UncutIffLargestFits(p);
    if p.Start(p.Total()) == |p.payload| {
      assert p.payload[..p.Start(p.Total())] == p.payload;
    }
  }

  lemma ReadUnchangedFits(a: Address)
    ensures a.AsRead() == a ==> a.DomainFits()
  {
  }
}
