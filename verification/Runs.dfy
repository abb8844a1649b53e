// Runs of the session table: any sequence of sends, receptions, insertions, dissociations
// and garbage collections. The table behaves as one independent machine per packet.
module Runs {
  import opened Wrappers
  import opened Protocol
  import R = Reassembly

  datatype Op =
    | SendPacket(assocId: u16)
    | RecvPacket(assocId: u16)
    | Insert(header: PacketHeader, data: Bytes, now: nat)
    | Dissociate(assocId: u16)
    // `clock(a)(p)` is what the clock says when the pass comes to packet `p` of association `a`.
    | Collect(timeout: nat, clock: u16 -> u16 -> nat)

  datatype Reply = Sent(pktId: u16) | Inserted(outcome: R.Outcome) | Done

  function Step(t: R.Table, op: Op): (R.Table, Reply) {
    match op
    case SendPacket(assocId) => var (t', pktId) := R.Send(t, assocId); (t', Sent(pktId))
    case RecvPacket(assocId) => (R.OpenSession(t, assocId), Done)
    case Insert(h, data, now) => var (t', out) := R.Insert(t, h, data, now); (t', Inserted(out))
    case Dissociate(assocId) => (R.Dissociate(t, assocId), Done)
    case Collect(timeout, clock) => (R.Collect(t, timeout, clock), Done)
  }

  /** The table after all of `ops`. */
  function Run(t: R.Table, ops: seq<Op>): R.Table {
    if ops == [] then t else Step(Run(t, ops[..|ops| - 1]), ops[|ops| - 1]).0
  }

  function ReplyAt(t: R.Table, ops: seq<Op>, i: nat): Reply
    requires i < |ops|
  {
    Step(Run(t, ops[..i]), ops[i]).1
  }

  lemma RunStep(t: R.Table, ops: seq<Op>, i: nat)
    requires i < |ops|
    ensures Run(t, ops[..i + 1]) == Step(Run(t, ops[..i]), ops[i]).0
  {
    assert ops[..i + 1][..i] == ops[..i];
  }

  /** In every reachable table every buffer is resident. */
  lemma {:induction false} ReachableIsResident(t: R.Table, ops: seq<Op>)
    requires R.ResidentTable(t)
    ensures R.ResidentTable(Run(t, ops))
  {
    if ops != [] {
      var before := Run(t, ops[..|ops| - 1]);
      ReachableIsResident(t, ops[..|ops| - 1]);
      match ops[|ops| - 1] {
        case Insert(h, data, now) => R.InsertKeepsTable(before, h, data, now);
        case _ =>
      }
    }
  }

  /** In every run every delivered packet is complete, so that unwrapping its slots never fails. */
  lemma DeliveredIsComplete(t: R.Table, ops: seq<Op>, n: nat)
    requires R.ResidentTable(t) && n < |ops|
    requires ops[n].Insert? && ReplyAt(t, ops, n).outcome.Delivered?
    ensures R.Complete(ReplyAt(t, ops, n).outcome.packet)
    ensures |ReplyAt(t, ops, n).outcome.packet.slots| <= 0xff
  {
    ReachableIsResident(t, ops[..n]);
    var before := Run(t, ops[..n]);
    R.InsertKeepsTable(before, ops[n].header, ops[n].data, ops[n].now);
    var s := R.OpenSession(before, ops[n].header.assocId)[ops[n].header.assocId];
    R.InsertKeepsSession(s, ops[n].header, ops[n].data, ops[n].now);
    R.InsertKeepsResident(R.OpenBuffer(s, ops[n].header, ops[n].now), ops[n].header, ops[n].data);
  }

  // One packet's view of the table.

  datatype Key = Key(assocId: u16, pktId: u16)

  function KeyOf(h: PacketHeader): Key {
    Key(h.assocId, h.pktId)
  }

  /** The buffer of a packet, if the table holds one. */
  function View(t: R.Table, k: Key): Option<R.Buffer> {
    if k.assocId in t && k.pktId in t[k.assocId].pktBuf then Some(t[k.assocId].pktBuf[k.pktId]) else None
  }

  predicate Inserts(op: Op, k: Key) {
    op.Insert? && KeyOf(op.header) == k
  }

  function LocalInsert(v: Option<R.Buffer>, h: PacketHeader, data: Bytes, now: nat): (Option<R.Buffer>, R.Outcome) {
    var b := if v.Some? then v.value else R.NewBuffer(h.fragTotal, now);
    var (b', out) := R.InsertBuffer(b, h, data);
    (if out.Delivered? then None else Some(b'), out)
  }

  /** What an operation does to the buffer of packet `k`, told from that buffer alone. */
  function LocalStep(v: Option<R.Buffer>, op: Op, k: Key): Option<R.Buffer> {
    match op
    case Insert(h, data, now) => if KeyOf(h) == k then LocalInsert(v, h, data, now).0 else v
    case Dissociate(assocId) => if assocId == k.assocId then None else v
    case Collect(timeout, clock) => if v.Some? && R.Elapsed(clock(k.assocId)(k.pktId), v.value.cTime) >= timeout then None else v
    case SendPacket(_) => v
    case RecvPacket(_) => v
  }

  /** The table is a product of independent machines, one per packet. */
  lemma StepIsLocal(t: R.Table, op: Op, k: Key)
    ensures View(Step(t, op).0, k) == LocalStep(View(t, k), op, k)
    ensures Inserts(op, k) ==>
              Step(t, op).1 == Inserted(LocalInsert(View(t, k), op.header, op.data, op.now).1)
  {
  }

  lemma RunIsLocal(t: R.Table, ops: seq<Op>, i: nat, k: Key)
    requires i < |ops|
    ensures View(Run(t, ops[..i + 1]), k) == LocalStep(View(Run(t, ops[..i]), k), ops[i], k)
    ensures Inserts(ops[i], k) ==>
              ReplyAt(t, ops, i) ==
              Inserted(LocalInsert(View(Run(t, ops[..i]), k), ops[i].header, ops[i].data, ops[i].now).1)
  {
    RunStep(t, ops, i);
    StepIsLocal(Run(t, ops[..i]), ops[i], k);
  }

  lemma ViewIsResident(t: R.Table, ops: seq<Op>, k: Key)
    requires R.ResidentTable(t)
    ensures View(Run(t, ops), k).Some? ==> R.Resident(View(Run(t, ops), k).value)
  {
    ReachableIsResident(t, ops);
  }

  /** A table is determined by its sessions, their id counters and the buffer of every packet. */
  lemma TableExtensionality(t1: R.Table, t2: R.Table)
    requires t1.Keys == t2.Keys
    requires forall a :: a in t1 ==> t1[a].nextPktId == t2[a].nextPktId
    requires forall k :: View(t1, k) == View(t2, k)
    ensures t1 == t2
  {
    forall a | a in t1
      ensures t1[a] == t2[a]
    {
      forall p: u16
        ensures p in t1[a].pktBuf <==> p in t2[a].pktBuf
        ensures p in t1[a].pktBuf ==> t1[a].pktBuf[p] == t2[a].pktBuf[p]
      {
        assert View(t1, Key(a, p)) == View(t2, Key(a, p));
      }
      assert t1[a].pktBuf == t2[a].pktBuf;
    }
  }

  lemma InsertFrame(t: R.Table, op: Op)
    requires op.Insert?
    ensures var t' := Step(t, op).0;
            && t'.Keys == t.Keys + {op.header.assocId}
            && (forall a :: a in t' ==> t'[a].nextPktId == if a in t then t[a].nextPktId else 0)
  {
  }

  /**
   * Which sessions there are after each operation, with which id counter. Sending, receiving
   * and inserting open the session of their own association, empty and with counter 0, when
   * there is none; dissociating removes it whatever it holds; nothing touches any other session.
   */
  lemma SessionsAfter(t: R.Table, op: Op)
    ensures var (t', reply) := Step(t, op);
            match op
            case SendPacket(a) =>
              var id: u16 := if a in t then t[a].nextPktId else 0;
              && reply == Sent(id)
              && t' == t[a := R.Session(if a in t then t[a].pktBuf else map[], if id == 0xffff then 0 else id + 1)]
            case RecvPacket(a) =>
              t'.Keys == t.Keys + {a} && (forall b :: b in t ==> t'[b] == t[b]) && (a !in t ==> t'[a] == R.Session(map[], 0))
            case Insert(h, _, _) =>
              && t'.Keys == t.Keys + {h.assocId}
              && (forall b :: b in t && b != h.assocId ==> t'[b] == t[b])
              && t'[h.assocId].nextPktId == (if h.assocId in t then t[h.assocId].nextPktId else 0)
            case Dissociate(a) =>
              t'.Keys == t.Keys - {a} && (forall b :: b in t' ==> t'[b] == t[b])
            case Collect(_, _) =>
              t'.Keys == t.Keys && (forall b :: b in t ==> t'[b].nextPktId == t[b].nextPktId)
  {
  }

  /** What each operation does to the buffer of a packet it hands no fragment to. */
  lemma OtherBuffersAfter(t: R.Table, op: Op, k: Key)
    requires !Inserts(op, k)
    ensures var v, v' := View(t, k), View(Step(t, op).0, k);
            match op
            case Dissociate(a) => v' == if k.assocId == a then None else v
            case Collect(timeout, clock) =>
              if timeout == 0 || (v.Some? && v.value.cTime + timeout <= clock(k.assocId)(k.pktId)) then v' == None else v' == v
            case _ => v' == v
  {
  }

  /** Insertions of different packets commute: same replies and same table in either order. */
  lemma InsertionsCommute(t: R.Table, op1: Op, op2: Op)
    requires op1.Insert? && op2.Insert?
    requires KeyOf(op1.header) != KeyOf(op2.header)
    ensures var (t1, r1) := Step(t, op1);
            var (t2, r2) := Step(t, op2);
            Step(t1, op2) == (Step(t2, op1).0, r2) && Step(t2, op1).1 == r1
  {
    var t1, t2 := Step(t, op1).0, Step(t, op2).0;
    var t12, t21 := Step(t1, op2).0, Step(t2, op1).0;
    InsertFrame(t, op1);
    InsertFrame(t, op2);
    InsertFrame(t1, op2);
    InsertFrame(t2, op1);
    forall k
      ensures View(t12, k) == View(t21, k)
    {
      StepIsLocal(t, op1, k);
      StepIsLocal(t, op2, k);
      StepIsLocal(t1, op2, k);
      StepIsLocal(t2, op1, k);
    }
    TableExtensionality(t12, t21);
    StepIsLocal(t, op1, KeyOf(op1.header));
    StepIsLocal(t, op2, KeyOf(op1.header));
    StepIsLocal(t2, op1, KeyOf(op1.header));
    StepIsLocal(t, op1, KeyOf(op2.header));
    StepIsLocal(t, op2, KeyOf(op2.header));
    StepIsLocal(t1, op2, KeyOf(op2.header));
  }

  /** A fragment that is not accepted leaves every buffer as it was, adding at most an empty buffer and an empty session. */
  lemma RefusedInsertion(t: R.Table, op: Op)
    requires op.Insert? && !Step(t, op).1.outcome.Accepted()
    ensures var t' := Step(t, op).0;
            && t'.Keys == t.Keys + {op.header.assocId}
            && (forall a :: a in t' ==> t'[a].nextPktId == if a in t then t[a].nextPktId else 0)
            && (forall k :: View(t', k) ==
                  if k == KeyOf(op.header) && View(t, k).None?
                  then Some(R.NewBuffer(op.header.fragTotal, op.now))
                  else View(t, k))
  {
    InsertFrame(t, op);
    forall k
      ensures View(Step(t, op).0, k) ==
              if k == KeyOf(op.header) && View(t, k).None?
              then Some(R.NewBuffer(op.header.fragTotal, op.now))
              else View(t, k)
    {
      StepIsLocal(t, op, k);
    }
  }

  // Leaving operations out.

  /** The outcomes of the insertions of packet `k`, in order. */
  function Outcomes(t: R.Table, ops: seq<Op>, k: Key): seq<R.Outcome> {
    if ops == [] then []
    else
      var last := |ops| - 1;
      Outcomes(t, ops[..last], k) + (if Inserts(ops[last], k) then [ReplyAt(t, ops, last).outcome] else [])
  }

  function Filter(keep: Op -> bool, ops: seq<Op>): seq<Op> {
    if ops == [] then []
    else
      var last := |ops| - 1;
      Filter(keep, ops[..last]) + (if keep(ops[last]) then [ops[last]] else [])
  }

  /** Operation `j` neither inserts a fragment of packet `k` nor changes its buffer. */
  ghost predicate IdleAt(t: R.Table, ops: seq<Op>, k: Key, j: nat)
    requires j < |ops|
  {
    var v := View(Run(t, ops[..j]), k);
    !Inserts(ops[j], k) && LocalStep(v, ops[j], k) == v
  }

  // One more operation, on two tables that agree on packet `k`.
  lemma SameStep(t: R.Table, ops1: seq<Op>, ops2: seq<Op>, op: Op, k: Key)
    requires View(Run(t, ops1), k) == View(Run(t, ops2), k)
    requires Outcomes(t, ops1, k) == Outcomes(t, ops2, k)
    ensures View(Run(t, ops1 + [op]), k) == View(Run(t, ops2 + [op]), k)
    ensures Outcomes(t, ops1 + [op], k) == Outcomes(t, ops2 + [op], k)
  {
    OneMore(t, ops1, op, k);
    OneMore(t, ops2, op, k);
  }

  lemma OneMore(t: R.Table, ops: seq<Op>, op: Op, k: Key)
    ensures View(Run(t, ops + [op]), k) == LocalStep(View(Run(t, ops), k), op, k)
    ensures Outcomes(t, ops + [op], k) ==
            Outcomes(t, ops, k) +
            if Inserts(op, k) then [LocalInsert(View(Run(t, ops), k), op.header, op.data, op.now).1] else []
  {
    var all := ops + [op];
    assert all[..|ops|] == ops;
    assert all[..|ops| + 1] == all;
    RunIsLocal(t, all, |ops|, k);
  }

  lemma IdleInFront(t: R.Table, ops: seq<Op>, k: Key, keep: Op -> bool, n: nat)
    requires n <= |ops| && forall j :: 0 <= j < |ops| && !keep(ops[j]) ==> IdleAt(t, ops, k, j)
    ensures forall j :: 0 <= j < n && !keep(ops[..n][j]) ==> IdleAt(t, ops[..n], k, j)
  {
    forall j | 0 <= j < n && !keep(ops[..n][j])
      ensures IdleAt(t, ops[..n], k, j)
    {
      assert IdleAt(t, ops, k, j);
      assert ops[..n][..j] == ops[..j];
    }
  }

  lemma {:induction false} FilterPreserves(t: R.Table, ops: seq<Op>, k: Key, keep: Op -> bool)
    requires forall j :: 0 <= j < |ops| && !keep(ops[j]) ==> IdleAt(t, ops, k, j)
    ensures View(Run(t, Filter(keep, ops)), k) == View(Run(t, ops), k)
    ensures Outcomes(t, Filter(keep, ops), k) == Outcomes(t, ops, k)
  {
    if ops != [] {
      var last := |ops| - 1;
      var front := ops[..last];
      IdleInFront(t, ops, k, keep, last);
      FilterPreserves(t, front, k, keep);
      assert ops == front + [ops[last]];
      if keep(ops[last]) {
        SameStep(t, Filter(keep, front), front, ops[last], k);
      } else {
        assert IdleAt(t, ops, k, last);
        OneMore(t, front, ops[last], k);
        assert Filter(keep, ops) == Filter(keep, front);
      }
    }
  }

  /** Whether an operation can concern packet `k` at all. */
  predicate Concerns(op: Op, k: Key) {
    Inserts(op, k) || op == Op.Dissociate(k.assocId) || op.Collect?
  }

  /** What becomes of a packet does not depend on any operation on other packets or associations. */
  lemma OthersDoNotMatter(t: R.Table, ops: seq<Op>, k: Key)
    ensures var own := Filter((op: Op) => Concerns(op, k), ops);
            && View(Run(t, own), k) == View(Run(t, ops), k)
            && Outcomes(t, own, k) == Outcomes(t, ops, k)
  {
    FilterPreserves(t, ops, k, (op: Op) => Concerns(op, k));
  }

  // Garbage collection.

  /** No pass finds the buffer of packet `k` at an age of at least the timeout. */
  ghost predicate Unexpired(t: R.Table, ops: seq<Op>, k: Key) {
    forall j :: 0 <= j < |ops| && ops[j].Collect? ==>
      var v := View(Run(t, ops[..j]), k);
      v.Some? ==> R.Elapsed(ops[j].clock(k.assocId)(k.pktId), v.value.cTime) < ops[j].timeout
  }

  /** Garbage collection is transparent to a packet it never finds expired: the same outcomes and buffer as without any pass. */
  lemma CollectionIsTransparent(t: R.Table, ops: seq<Op>, k: Key)
    requires Unexpired(t, ops, k)
    ensures var without := Filter((op: Op) => !op.Collect?, ops);
            && View(Run(t, without), k) == View(Run(t, ops), k)
            && Outcomes(t, without, k) == Outcomes(t, ops, k)
  {
    FilterPreserves(t, ops, k, (op: Op) => !op.Collect?);
  }

  /** A pass removes exactly the buffers that are as old as the timeout by the clock's reading at each, and keeps every session, id counter and other buffer. */
  lemma CollectionIsExact(t: R.Table, timeout: nat, clock: u16 -> u16 -> nat)
    ensures var t' := Step(t, Collect(timeout, clock)).0;
            && t'.Keys == t.Keys
            && (forall a :: a in t ==> t'[a].nextPktId == t[a].nextPktId)
            && (forall k :: View(t', k).Some? <==>
                  View(t, k).Some? && timeout > 0 && clock(k.assocId)(k.pktId) < View(t, k).value.cTime + timeout)
            && (forall k :: View(t', k).Some? ==> View(t', k) == View(t, k))
  {
  }

  // Slot misses.

  /** When all fragments of a packet agree on their number, none misses the slot vector. */
  lemma AgreeingHeadersNeverMiss(t: R.Table, ops: seq<Op>, k: Key, total: u8, n: nat)
    requires R.ResidentTable(t) && View(t, k).None?
    requires forall j :: 0 <= j < |ops| && Inserts(ops[j], k) ==> ops[j].header.fragTotal == total
    requires n < |ops| && Inserts(ops[n], k)
    ensures ReplyAt(t, ops, n) != Inserted(R.Panicked(R.SlotMiss))
  {
    AgreedTotal(t, ops, k, total, n);
    ViewIsResident(t, ops[..n], k);
    RunIsLocal(t, ops, n, k);
  }

  predicate HasTotal(v: Option<R.Buffer>, total: u8) {
    v.Some? ==> v.value.fragTotal == total
  }

  lemma StepKeepsTotal(v: Option<R.Buffer>, op: Op, k: Key, total: u8)
    requires HasTotal(v, total) && (Inserts(op, k) ==> op.header.fragTotal == total)
    ensures HasTotal(LocalStep(v, op, k), total)
  {
  }

  lemma {:induction false} AgreedTotal(t: R.Table, ops: seq<Op>, k: Key, total: u8, n: nat)
    requires View(t, k).None?
    requires forall j :: 0 <= j < |ops| && Inserts(ops[j], k) ==> ops[j].header.fragTotal == total
    requires n <= |ops|
    ensures HasTotal(View(Run(t, ops[..n]), k), total)
  {
    if n > 0 {
      AgreedTotal(t, ops, k, total, n - 1);
      RunIsLocal(t, ops, n - 1, k);
      StepKeepsTotal(View(Run(t, ops[..n - 1]), k), ops[n - 1], k, total);
    }
  }

  /** Otherwise a fragment whose own header is in order misses exactly when its id is not below the number the resident buffer was created for. */
  lemma MissIff(t: R.Table, ops: seq<Op>, n: nat)
    requires R.ResidentTable(t) && n < |ops| && ops[n].Insert?
    ensures var h := ops[n].header;
            var v := View(Run(t, ops[..n]), KeyOf(h));
            ReplyAt(t, ops, n) == Inserted(R.Panicked(R.SlotMiss)) <==>
            && v.Some? && v.value.fragTotal <= h.fragId < h.fragTotal
            && |ops[n].data| == h.size as int
            && (h.fragId == 0 <==> !h.addr.NoAddress?)
  {
    var h := ops[n].header;
    ViewIsResident(t, ops[..n], KeyOf(h));
    RunIsLocal(t, ops, n, KeyOf(h));
  }

  /** A run of two fragments of one packet with different totals, of which the second misses the slot vector. */
  lemma SlotMissHappens() returns (ops: seq<Op>)
    ensures |ops| == 2 && ops[0].Insert? && ops[1].Insert? && KeyOf(ops[0].header) == KeyOf(ops[1].header)
    ensures ReplyAt(map[], ops, 0) == Inserted(R.Pending)
    ensures ReplyAt(map[], ops, 1) == Inserted(R.Panicked(R.SlotMiss))
  {
    var h0 := PacketHeader(7, 1, 2, 0, 0, Ipv4Address([127, 0, 0, 1], 53));
    var h1 := PacketHeader(7, 1, 5, 3, 0, NoAddress);
    ops := [Insert(h0, [], 0), Insert(h1, [], 0)];
    assert ops[..0] == [];
    RunIsLocal(map[], ops, 0, KeyOf(h0));
    RunIsLocal(map[], ops, 1, KeyOf(h0));
    assert ops[..0 + 1] == ops[..1];
  }

  // Packet ids.

  function Sends(ops: seq<Op>, a: u16): nat {
    if ops == [] then 0
    else Sends(ops[..|ops| - 1], a) + (if ops[|ops| - 1] == SendPacket(a) then 1 else 0)
  }

  // The id counter of session `a`, as it follows from the number of sends.
  predicate CountsSends(t: R.Table, a: u16, sends: nat) {
    if a in t then t[a].nextPktId as int == sends % 0x1_0000 else sends == 0
  }

  lemma StepCountsSends(t: R.Table, op: Op, a: u16, sends: nat)
    requires CountsSends(t, a, sends) && op != Op.Dissociate(a)
    ensures CountsSends(Step(t, op).0, a, if op == SendPacket(a) then sends + 1 else sends)
  {
  }

  lemma {:induction false} NextIdCountsSends(t: R.Table, ops: seq<Op>, a: u16)
    requires a !in t
    requires Op.Dissociate(a) !in ops
    ensures CountsSends(Run(t, ops), a, Sends(ops, a))
  {
    if ops != [] {
      var front, last := ops[..|ops| - 1], ops[|ops| - 1];
      assert last in ops;
      NextIdCountsSends(t, front, a);
      StepCountsSends(Run(t, front), last, a, Sends(front, a));
    }
  }

  /** The n-th packet sent in one lifetime of a session gets id n modulo 65536, whatever else happens in between. */
  lemma PacketIds(t: R.Table, ops: seq<Op>, a: u16, j: nat)
    requires a !in t
    requires j < |ops| && ops[j] == SendPacket(a)
    requires Op.Dissociate(a) !in ops[..j]
    ensures ReplyAt(t, ops, j) == Sent(Sends(ops[..j], a) % 0x1_0000)
  {
    NextIdCountsSends(t, ops[..j], a);
  }

  lemma {:induction false} SendsGrow(ops: seq<Op>, a: u16, i: nat, j: nat)
    requires i < j < |ops|
    requires ops[i] == SendPacket(a)
    ensures Sends(ops[..i], a) < Sends(ops[..j], a)
  {
    assert ops[..j][..j - 1] == ops[..j - 1];
    if i < j - 1 {
      SendsGrow(ops, a, i, j - 1);
    }
  }

  lemma SameModulo(m: nat, n: nat)
    requires m < n
    ensures m % 0x1_0000 == n % 0x1_0000 <==> (n - m) % 0x1_0000 == 0
  {
  }

  /** Two packets of one lifetime have the same id exactly when the number of sends from the one to the other is a multiple of 65536. */
  lemma IdsInWindowAreDistinct(t: R.Table, ops: seq<Op>, a: u16, i: nat, j: nat)
    requires a !in t
    requires i < j < |ops| && ops[i] == ops[j] == SendPacket(a)
    requires Op.Dissociate(a) !in ops[..j]
    ensures Sends(ops[..i], a) < Sends(ops[..j], a)
    ensures ReplyAt(t, ops, i) == ReplyAt(t, ops, j) <==>
            (Sends(ops[..j], a) - Sends(ops[..i], a)) % 0x1_0000 == 0
  {
    assert forall op :: op in ops[..i] ==> op in ops[..j];
    PacketIds(t, ops, a, i);
    PacketIds(t, ops, a, j);
    SendsGrow(ops, a, i, j);
    SameModulo(Sends(ops[..i], a), Sends(ops[..j], a));
  }
}
