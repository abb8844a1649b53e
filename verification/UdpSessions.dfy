// The session table as the program keeps it: objects updated in place. Every method is
// tied to the value-level operation of the same name.
module UdpSessions {
  import opened Wrappers
  import opened Protocol
  import R = Reassembly

  /** Appends the data of a complete packet to a buffer, slot by slot. */
  method Assemble(p: R.Assemblable, buf: Bytes) returns (data: Bytes, addr: Address, assocId: u16)
    requires R.Complete(p)
    ensures data == buf + Concat(R.Parts(p.slots))
    ensures addr == p.addr && assocId == p.assocId
  {
    data := buf;
    ghost var parts := R.Parts(p.slots);
    for i := 0 to |p.slots|
      invariant data == buf + Concat(parts[..i])
    {
      assert parts[..i + 1][..i] == parts[..i];
      data := data + p.slots[i].value;
    }
    assert parts[..|parts|] == parts;
    addr, assocId := p.addr, p.assocId;
  }

  class PacketBuffer {
    // The packet this buffer is for.
    ghost const pktId: u16

    var buf: seq<Option<Bytes>>
    const fragTotal: u8
    var fragReceived: u8
    var addr: Address
    const cTime: nat

    function View(): R.Buffer
      reads this
    {
      R.Buffer(buf, fragTotal, fragReceived, addr, cTime)
    }

    constructor (fragTotal: u8, now: nat, ghost pktId: u16)
      ensures View() == R.NewBuffer(fragTotal, now) && this.pktId == pktId
    {
      buf := seq(fragTotal, _ => None);
      this.fragTotal := fragTotal;
      fragReceived := 0;
      addr := NoAddress;
      cTime := now;
      this.pktId := pktId;
    }

    method Insert(h: PacketHeader, data: Bytes) returns (r: R.Outcome)
      requires R.Resident(View())
      modifies this
      ensures (View(), r) == R.InsertBuffer(old(View()), h, data)
    {
      R.InsertKeepsResident(View(), h, data);
      if |data| != h.size as int {
        return R.Panicked(R.SizeMismatch);
      }
      if h.fragId >= h.fragTotal {
        return R.Rejected(R.InvalidFragmentId(h.fragTotal, h.fragId));
      }
      if h.fragId == 0 && h.addr.NoAddress? {
        return R.Rejected(R.NoAddressInFirstFragment);
      }
      if h.fragId != 0 && !h.addr.NoAddress? {
        return R.Rejected(R.AddressInNonFirstFragment);
      }
      if h.fragId as int >= |buf| {
        return R.Panicked(R.SlotMiss);
      }
      if buf[h.fragId].Some? {
        return R.Rejected(R.DuplicatedFragment(h.fragId));
      }
      buf := buf[h.fragId := Some(data)];
      fragReceived := fragReceived + 1;
      if h.fragId == 0 {
        addr := h.addr;
      }
      if fragReceived == fragTotal {
        r := R.Delivered(R.Assemblable(buf, addr, h.assocId));
        buf, addr := [], NoAddress;
      } else {
        r := R.Pending;
      }
    }
  }

  class UdpSession {
    var pktBuf: map<u16, PacketBuffer>
    var nextPktId: u16

    // The objects the session is made of, and the session as a value.
    ghost var Repr: set<object>
    ghost var view: R.Session

    // Each buffer is stored under its own packet.
    ghost predicate Valid()
      reads this, Repr
      ensures Valid() ==> this in Repr
    {
      && this in Repr
      && view.nextPktId == nextPktId
      && view.pktBuf.Keys == pktBuf.Keys
      && (forall p :: p in pktBuf ==> pktBuf[p] in Repr && pktBuf[p].pktId == p && pktBuf[p].View() == view.pktBuf[p])
    }

    constructor ()
      ensures Valid() && fresh(Repr) && view == R.NewSession
    {
      pktBuf := map[];
      nextPktId := 0;
      Repr := {this};
      view := R.NewSession;
    }

    method SendPacket() returns (pktId: u16)
      requires Valid()
      modifies this
      ensures Valid() && Repr == old(Repr)
      ensures view == R.AfterSend(old(view))
      ensures pktId == old(view).nextPktId
    {
      pktId := nextPktId;
      nextPktId := (nextPktId + 1) % 0x1_0000;
      view := R.AfterSend(view);
    }

    // Creates the buffer of a packet when there is none.
    method OpenBuffer(h: PacketHeader, now: nat)
      requires Valid()
      modifies this
      ensures Valid() && fresh(Repr - old(Repr))
      ensures h.pktId in pktBuf
      ensures view == old(view).(pktBuf := old(view).pktBuf[h.pktId := R.OpenBuffer(old(view), h, now)])
    {
      if h.pktId !in pktBuf {
        var b := new PacketBuffer(h.fragTotal, now, h.pktId);
        pktBuf := pktBuf[h.pktId := b];
        Repr := Repr + {b};
      }
      view := view.(pktBuf := view.pktBuf[h.pktId := R.OpenBuffer(view, h, now)]);
    }

    // Hands the fragment to the buffer of its packet, which is there.
    method InsertOpened(h: PacketHeader, data: Bytes) returns (r: R.Outcome)
      requires Valid() && h.pktId in pktBuf && R.Resident(view.pktBuf[h.pktId])
      modifies this, pktBuf[h.pktId]
      ensures Valid() && Repr == old(Repr)
      ensures r == R.InsertBuffer(old(view).pktBuf[h.pktId], h, data).1
      ensures view == R.Settle(old(view), h.pktId, R.InsertBuffer(old(view).pktBuf[h.pktId], h, data))
    {
      ghost var before := view.pktBuf[h.pktId];
      r := pktBuf[h.pktId].Insert(h, data);
      view := R.Settle(view, h.pktId, R.InsertBuffer(before, h, data));
      if r.Delivered? {
        pktBuf := pktBuf - {h.pktId};
      }
    }

    method Insert(h: PacketHeader, data: Bytes, now: nat) returns (r: R.Outcome)
      requires Valid() && R.ResidentSession(view)
      modifies Repr
      ensures Valid() && fresh(Repr - old(Repr))
      ensures (view, r) == R.InsertSession(old(view), h, data, now)
    {
      R.InsertKeepsSession(view, h, data, now);
      OpenBuffer(h, now);
      r := InsertOpened(h, data);
    }

    method CollectGarbage(timeout: nat, clock: u16 -> nat)
      requires Valid()
      modifies this
      ensures Valid() && Repr == old(Repr)
      ensures view == R.CollectSession(old(view), timeout, clock)
    {
      pktBuf := map p | p in pktBuf && R.Elapsed(clock(p), pktBuf[p].cTime) < timeout :: pktBuf[p];
      view := R.CollectSession(view, timeout, clock);
    }
  }

  class UdpSessions {
    var sessions: map<u16, UdpSession>
    var taskAssociateCount: nat

    // The objects below the table, and the table as a value.
    ghost var Repr: set<object>
    ghost var view: R.Table

    // Every buffer is resident, and every session counts as one task.
    ghost predicate Valid()
      reads this, Repr
    {
      this !in Repr && Structured() && R.ResidentTable(view) && taskAssociateCount == |sessions.Keys|
    }

    // The sessions are those of the view, and no two of them share an object.
    ghost predicate Structured()
      reads `sessions, `Repr, `view, Repr
    {
      && view.Keys == sessions.Keys
      && (forall a :: a in sessions ==> sessions[a] in Repr && sessions[a].Repr <= Repr)
      && (forall a :: a in sessions ==> sessions[a].Valid() && sessions[a].view == view[a])
      && (forall a, b :: a in sessions && b in sessions && a != b ==> sessions[a].Repr !! sessions[b].Repr)
    }

    // The objects of all sessions but one.
    ghost function Others(assocId: u16): set<object>
      requires Structured()
      reads `sessions, `Repr, `view, Repr
    {
      set a, o | a in sessions && a != assocId && o in sessions[a].Repr :: o
    }

    // Updating one session and nothing of the others keeps the structure.
    twostate lemma Refit(assocId: u16)
      requires old(this !in Repr && Structured()) && assocId in old(sessions)
      requires sessions == old(sessions) && unchanged(old(Others(assocId)))
      requires sessions[assocId].Valid() && fresh(sessions[assocId].Repr - old(sessions[assocId].Repr))
      requires view == old(view)[assocId := sessions[assocId].view]
      requires Repr == old(Repr) + sessions[assocId].Repr
      ensures Structured()
    {
      forall b | b in sessions && b != assocId
        ensures sessions[b].Valid() && sessions[b].view == view[b] && sessions[b].Repr == old(sessions[b].Repr)
      {
        assert old(sessions[b].Valid());
        assert forall o :: o in old(sessions[b].Repr) ==> o in old(Others(assocId));
      }
    }

    constructor ()
      ensures Valid() && fresh(Repr) && view == map[]
    {
      sessions := map[];
      taskAssociateCount := 0;
      Repr := {};
      view := map[];
    }

    // The steps below work on the structure alone; the public operations add the task counter.

    method Add(assocId: u16)
      requires this !in Repr && Structured() && assocId !in sessions
      modifies `sessions, `Repr, `view
      ensures Structured() && fresh(Repr - old(Repr))
      ensures assocId in sessions && sessions == old(sessions)[assocId := sessions[assocId]]
      ensures view == old(view)[assocId := R.NewSession]
    {
      var s := new UdpSession();
      sessions := sessions[assocId := s];
      Repr := Repr + s.Repr;
      view := view[assocId := R.NewSession];
    }

    // Creates and registers the session of an association when there is none.
    method OpenSession(assocId: u16)
      requires Valid()
      modifies this
      ensures Valid() && fresh(Repr - old(Repr))
      ensures view == R.OpenSession(old(view), assocId)
    {
      if assocId !in sessions {
        Add(assocId);
        taskAssociateCount := taskAssociateCount + 1;
      }
    }

    method Remove(assocId: u16)
      requires this !in Repr && Structured()
      modifies `sessions, `view
      ensures Structured()
      ensures sessions.Keys == old(sessions.Keys) - {assocId}
      ensures view == old(view) - {assocId}
    {
      sessions := sessions - {assocId};
      view := view - {assocId};
    }

    method Dissociate(assocId: u16)
      requires Valid()
      modifies this
      ensures Valid() && Repr == old(Repr)
      ensures view == R.Dissociate(old(view), assocId)
      ensures assocId !in view
      ensures taskAssociateCount == old(taskAssociateCount) - if assocId in old(view) then 1 else 0
    {
      taskAssociateCount := if assocId in sessions then taskAssociateCount - 1 else taskAssociateCount;
      assert Structured();
      Remove(assocId);
      assert R.ResidentTable(view);
    }

    method SendOpened(assocId: u16) returns (pktId: u16)
      requires this !in Repr && Structured() && assocId in sessions
      modifies `view, sessions[assocId]
      ensures Structured()
      ensures pktId == old(view)[assocId].nextPktId
      ensures view == old(view)[assocId := R.AfterSend(old(view)[assocId])]
    {
      var s := sessions[assocId];
      pktId := s.SendPacket();
      view := view[assocId := s.view];
      Refit(assocId);
    }

    method SendPacket(assocId: u16) returns (pktId: u16)
      requires Valid()
      modifies this, Repr
      ensures Valid() && fresh(Repr - old(Repr))
      ensures (view, pktId) == R.Send(old(view), assocId)
    {
      OpenSession(assocId);
      assert R.ResidentTable(view);
      pktId := SendOpened(assocId);
      assert R.ResidentTable(view);
    }

    // Whether packets of this association may be received.
    method RecvPacket(assocId: u16) returns (known: bool)
      requires Valid()
      ensures known <==> assocId in view
    {
      known := assocId in sessions;
    }

    method RecvPacketUnrestricted(assocId: u16)
      requires Valid()
      modifies this
      ensures Valid() && fresh(Repr - old(Repr))
      ensures view == R.OpenSession(old(view), assocId)
    {
      OpenSession(assocId);
    }

    method InsertOpened(h: PacketHeader, data: Bytes, now: nat) returns (r: R.Outcome)
      requires this !in Repr && Structured() && h.assocId in sessions
      requires R.ResidentSession(view[h.assocId])
      modifies `view, `Repr, sessions[h.assocId].Repr
      ensures Structured() && fresh(Repr - old(Repr))
      ensures r == R.InsertSession(old(view)[h.assocId], h, data, now).1
      ensures view == old(view)[h.assocId := R.InsertSession(old(view)[h.assocId], h, data, now).0]
    {
      var s := sessions[h.assocId];
      r := s.Insert(h, data, now);
      Repr := Repr + s.Repr;
      view := view[h.assocId := s.view];
      Refit(h.assocId);
    }

    method Insert(h: PacketHeader, data: Bytes, now: nat) returns (r: R.Outcome)
      requires Valid()
      modifies this, Repr
      ensures Valid() && fresh(Repr - old(Repr))
      ensures view == R.Insert(old(view), h, data, now).0 && r == R.Insert(old(view), h, data, now).1
      ensures r.Delivered? ==> R.Complete(r.packet)
    {
      R.InsertKeepsTable(view, h, data, now);
      OpenSession(h.assocId);
      r := InsertOpened(h, data, now);
    }

    method CollectSession(assocId: u16, timeout: nat, clock: u16 -> nat)
      requires this !in Repr && Structured() && assocId in sessions
      modifies `view, sessions[assocId]
      ensures Structured()
      ensures view == old(view)[assocId := R.CollectSession(old(view)[assocId], timeout, clock)]
    {
      var s := sessions[assocId];
      s.CollectGarbage(timeout, clock);
      view := view[assocId := s.view];
      Refit(assocId);
    }

    method CollectSessions(timeout: nat, clock: u16 -> u16 -> nat)
      requires this !in Repr && Structured()
      modifies `view, Repr
      ensures Structured()
      ensures view == R.Collect(old(view), timeout, clock)
    {
      var todo := sessions.Keys;
      while todo != {}
        invariant todo <= sessions.Keys
        invariant Structured()
        invariant view == R.CollectExcept(old(view), todo, timeout, clock)
        decreases todo
      {
        var a :| a in todo;
        R.CollectOneMore(old(view), todo, a, timeout, clock);
        CollectSession(a, timeout, clock(a));
        todo := todo - {a};
      }
      R.CollectAll(old(view), timeout, clock);
    }

    method CollectGarbage(timeout: nat, clock: u16 -> u16 -> nat)
      requires Valid()
      modifies this, Repr
      ensures Valid() && Repr == old(Repr)
      ensures view == R.Collect(old(view), timeout, clock)
    {
      CollectSessions(timeout, clock);
    }
  }
}
