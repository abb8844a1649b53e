// Reassembly of received fragments, as values: buffers of one packet, sessions of one
// association, the table of all sessions, and what each operation does to them.
module Reassembly {
  import opened Wrappers
  import opened Protocol

  /** The fragments of one packet received so far, and when the first of them arrived. */
  datatype Buffer = Buffer(
    slots: seq<Option<Bytes>>, fragTotal: u8, fragReceived: nat, addr: Address, cTime: nat)

  /** All slots of one packet, on their way to being joined. */
  datatype Assemblable = Assemblable(slots: seq<Option<Bytes>>, addr: Address, assocId: u16)

  datatype AssembleError =
    | InvalidFragmentId(total: u8, id: u8)
    | NoAddressInFirstFragment
    | AddressInNonFirstFragment
    | DuplicatedFragment(id: u8)

  // Failed assertion on the data length; index past the end of the slot vector.
  datatype Panic = SizeMismatch | SlotMiss

  datatype Outcome =
    | Delivered(packet: Assemblable)
    | Pending
    | Rejected(error: AssembleError)
    | Panicked(panic: Panic)
  {
    predicate Accepted() {
      Delivered? || Pending?
    }
  }

  datatype Session = Session(pktBuf: map<u16, Buffer>, nextPktId: u16)

  type Table = map<u16, Session>

  function NewBuffer(fragTotal: u8, now: nat): Buffer {
    Buffer(seq(fragTotal, _ => None), fragTotal, 0, NoAddress, now)
  }

  const NewSession := Session(map[], 0)

  function InsertBuffer(b: Buffer, h: PacketHeader, data: Bytes): (Buffer, Outcome) {
    if |data| != h.size as int then (b, Panicked(SizeMismatch))
    else if h.fragId >= h.fragTotal then (b, Rejected(InvalidFragmentId(h.fragTotal, h.fragId)))
    else if h.fragId == 0 && h.addr.NoAddress? then (b, Rejected(NoAddressInFirstFragment))
    else if h.fragId != 0 && !h.addr.NoAddress? then (b, Rejected(AddressInNonFirstFragment))
    else if h.fragId as int >= |b.slots| then (b, Panicked(SlotMiss))
    else if b.slots[h.fragId].Some? then (b, Rejected(DuplicatedFragment(h.fragId)))
    else
      var slots := b.slots[h.fragId := Some(data)];
      var received := b.fragReceived + 1;
      var addr := if h.fragId == 0 then h.addr else b.addr;
      if received == b.fragTotal as int then
        (Buffer([], b.fragTotal, received, NoAddress, b.cTime), Delivered(Assemblable(slots, addr, h.assocId)))
      else
        (Buffer(slots, b.fragTotal, received, addr, b.cTime), Pending)
  }

  function OpenBuffer(s: Session, h: PacketHeader, now: nat): Buffer {
    if h.pktId in s.pktBuf then s.pktBuf[h.pktId] else NewBuffer(h.fragTotal, now)
  }

  // Stores what became of the buffer of a packet: a delivered one is removed.
  function Settle(s: Session, pktId: u16, result: (Buffer, Outcome)): Session {
    s.(pktBuf := if result.1.Delivered? then s.pktBuf - {pktId} else s.pktBuf[pktId := result.0])
  }

  function InsertSession(s: Session, h: PacketHeader, data: Bytes, now: nat): (Session, Outcome) {
    var b := OpenBuffer(s, h, now);
    var result := InsertBuffer(b, h, data);
    (Settle(s.(pktBuf := s.pktBuf[h.pktId := b]), h.pktId, result), result.1)
  }

  // The time passed, as a monotonic clock reports it.
  function Elapsed(now: nat, since: nat): nat {
    if since <= now then now - since else 0
  }

  // The clock is read anew at each buffer: `clock(p)` is its reading at packet `p`.
  function CollectSession(s: Session, timeout: nat, clock: u16 -> nat): Session {
    s.(pktBuf := map p | p in s.pktBuf && Elapsed(clock(p), s.pktBuf[p].cTime) < timeout :: s.pktBuf[p])
  }

  function OpenSession(t: Table, assocId: u16): Table {
    if assocId in t then t else t[assocId := NewSession]
  }

  function Insert(t: Table, h: PacketHeader, data: Bytes, now: nat): (Table, Outcome) {
    var open := OpenSession(t, h.assocId);
    var (s, out) := InsertSession(open[h.assocId], h, data, now);
    (open[h.assocId := s], out)
  }

  // Packet ids wrap around at 16 bits.
  function AfterSend(s: Session): Session {
    s.(nextPktId := (s.nextPktId + 1) % 0x1_0000)
  }

  // The new table and the id the packet is sent under.
  function Send(t: Table, assocId: u16): (Table, u16) {
    var open := OpenSession(t, assocId);
    (open[assocId := AfterSend(open[assocId])], open[assocId].nextPktId)
  }

  function Dissociate(t: Table, assocId: u16): Table {
    t - {assocId}
  }

  function Collect(t: Table, timeout: nat, clock: u16 -> u16 -> nat): Table {
    map a | a in t :: CollectSession(t[a], timeout, clock(a))
  }

  // A pass over the sessions that has yet to reach those of `todo`.
  ghost function CollectExcept(t: Table, todo: set<u16>, timeout: nat, clock: u16 -> u16 -> nat): Table {
    map a | a in t :: if a in todo then t[a] else CollectSession(t[a], timeout, clock(a))
  }

  lemma CollectOneMore(t: Table, todo: set<u16>, a: u16, timeout: nat, clock: u16 -> u16 -> nat)
    requires a in todo && a in t
    ensures CollectExcept(t, todo, timeout, clock)[a := CollectSession(t[a], timeout, clock(a))] ==
            CollectExcept(t, todo - {a}, timeout, clock)
    ensures CollectExcept(t, todo, timeout, clock)[a] == t[a]
  {
  }

  lemma CollectAll(t: Table, timeout: nat, clock: u16 -> u16 -> nat)
    ensures CollectExcept(t, t.Keys, timeout, clock) == t
    ensures CollectExcept(t, {}, timeout, clock) == Collect(t, timeout, clock)
  {
  }

  // Counting slots.

  function Filled(slots: seq<Option<Bytes>>): (n: nat)
    ensures n <= |slots|
  {
    if slots == [] then 0
    else Filled(slots[..|slots| - 1]) + (if slots[|slots| - 1].Some? then 1 else 0)
  }

  lemma {:induction false} FilledOnUpdate(slots: seq<Option<Bytes>>, i: nat, data: Bytes)
    requires i < |slots| && slots[i].None?
    ensures Filled(slots[i := Some(data)]) == Filled(slots) + 1
  {
    var last := |slots| - 1;
    if i == last {
      assert slots[i := Some(data)][..last] == slots[..last];
    } else {
      assert slots[i := Some(data)][..last] == slots[..last][i := Some(data)];
      FilledOnUpdate(slots[..last], i, data);
    }
  }

  /** All slots are filled exactly when the count says so. */
  lemma {:induction false} FullIffAllFilled(slots: seq<Option<Bytes>>)
    ensures Filled(slots) == |slots| <==> forall i :: 0 <= i < |slots| ==> slots[i].Some?
  {
    if slots != [] {
      FullIffAllFilled(slots[..|slots| - 1]);
    }
  }

  lemma {:induction false} NoneFilled(n: nat)
    ensures Filled(seq(n, _ => None)) == 0
  {
    if n > 0 {
      var slots: seq<Option<Bytes>> := seq(n, _ => None);
      assert slots[..n - 1] == seq(n - 1, _ => None);
      NoneFilled(n - 1);
    }
  }

  /** What holds of every buffer that is in the table. */
  ghost predicate Resident(b: Buffer) {
    && |b.slots| == b.fragTotal as int
    && b.fragReceived == Filled(b.slots)
    && (b.addr.NoAddress? <==> b.slots == [] || b.slots[0].None?)
    && (b.fragReceived < b.fragTotal as int || b.fragTotal == 0)
  }

  ghost predicate ResidentSession(s: Session) {
    forall p :: p in s.pktBuf ==> Resident(s.pktBuf[p])
  }

  ghost predicate ResidentTable(t: Table) {
    forall a :: a in t ==> ResidentSession(t[a])
  }

  /** What holds of every packet handed over: no slot is empty and the address is there. */
  ghost predicate Complete(p: Assemblable) {
    p.slots != [] && (forall i :: 0 <= i < |p.slots| ==> p.slots[i].Some?) && !p.addr.NoAddress?
  }

  /** The data of a complete packet, slot by slot. */
  function Parts(slots: seq<Option<Bytes>>): (parts: seq<Bytes>)
    requires forall i :: 0 <= i < |slots| ==> slots[i].Some?
    ensures |parts| == |slots|
  {
    seq(|slots|, i requires 0 <= i < |slots| => slots[i].value)
  }

  lemma NewBufferIsResident(fragTotal: u8, now: nat)
    ensures Resident(NewBuffer(fragTotal, now))
  {
    NoneFilled(fragTotal);
  }

  /** Inserting keeps a resident buffer resident unless it completes the packet, which is then complete. */
  lemma InsertKeepsResident(b: Buffer, h: PacketHeader, data: Bytes)
    requires Resident(b)
    ensures var (b', out) := InsertBuffer(b, h, data);
            if out.Delivered? then Complete(out.packet) && |out.packet.slots| == b.fragTotal as int
            else Resident(b')
    ensures InsertBuffer(b, h, data).0.fragReceived <= 0xff
  {
    var (b', out) := InsertBuffer(b, h, data);
    if out.Accepted() {
      var slots := b.slots[h.fragId := Some(data)];
      FilledOnUpdate(b.slots, h.fragId, data);
      FullIffAllFilled(slots);
      assert out.Delivered? ==> slots[0].Some?;
    }
  }

  /** Which fragments a resident buffer takes. */
  lemma AcceptedIff(b: Buffer, h: PacketHeader, data: Bytes)
    requires Resident(b)
    ensures InsertBuffer(b, h, data).1.Accepted() <==>
            && |data| == h.size as int
            && h.fragId < h.fragTotal
            && (h.fragId == 0 <==> !h.addr.NoAddress?)
            && h.fragId < b.fragTotal
            && b.slots[h.fragId].None?
  {
  }

  /** An accepted fragment changes its own slot, the count and, if it is the first one, the address; it completes the packet exactly when no slot is left empty. */
  lemma AcceptedEffect(b: Buffer, h: PacketHeader, data: Bytes)
    requires Resident(b)
    requires InsertBuffer(b, h, data).1.Accepted()
    ensures var (b', out) := InsertBuffer(b, h, data);
            && (out.Delivered? <==>
                forall i :: 0 <= i < |b.slots| && i != h.fragId as int ==> b.slots[i].Some?)
            && var slots := if out.Delivered? then out.packet.slots else b'.slots;
               var addr := if out.Delivered? then out.packet.addr else b'.addr;
            && |slots| == |b.slots|
            && (forall i :: 0 <= i < |slots| ==>
                  slots[i] == if i == h.fragId as int then Some(data) else b.slots[i])
            && addr == (if h.fragId == 0 then h.addr else b.addr)
            && b'.fragReceived == b.fragReceived + 1
            && b'.fragTotal == b.fragTotal && b'.cTime == b.cTime
            && (out.Delivered? ==> out.packet.assocId == h.assocId)
  {
    var slots := b.slots[h.fragId := Some(data)];
    FilledOnUpdate(b.slots, h.fragId, data);
    FullIffAllFilled(slots);
    assert forall i :: 0 <= i < |b.slots| && i != h.fragId as int ==> slots[i] == b.slots[i];
  }

  /** Beyond the checks on its own header, a fragment misses the slot vector exactly when its id is past the total the buffer was created with. */
  lemma SlotMissIff(b: Buffer, h: PacketHeader, data: Bytes)
    requires Resident(b)
    ensures InsertBuffer(b, h, data).1 == Panicked(SlotMiss) <==>
            && |data| == h.size as int
            && b.fragTotal <= h.fragId < h.fragTotal
            && (h.fragId == 0 <==> !h.addr.NoAddress?)
  {
  }

  // The table.

  lemma InsertKeepsSession(s: Session, h: PacketHeader, data: Bytes, now: nat)
    requires ResidentSession(s)
    ensures Resident(OpenBuffer(s, h, now))
    ensures ResidentSession(InsertSession(s, h, data, now).0)
    ensures var out := InsertSession(s, h, data, now).1; out.Delivered? ==> Complete(out.packet)
  {
    NewBufferIsResident(h.fragTotal, now);
    InsertKeepsResident(OpenBuffer(s, h, now), h, data);
  }

  lemma InsertKeepsTable(t: Table, h: PacketHeader, data: Bytes, now: nat)
    requires ResidentTable(t)
    ensures ResidentTable(Insert(t, h, data, now).0)
    ensures var out := Insert(t, h, data, now).1; out.Delivered? ==> Complete(out.packet)
  {
    InsertKeepsSession(OpenSession(t, h.assocId)[h.assocId], h, data, now);
  }
}
