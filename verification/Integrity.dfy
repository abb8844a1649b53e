// Where the fragments of a delivered packet come from, in any run that starts with an
// empty table, whatever headers arrive and whatever is dissociated or collected.
module Integrity {
  import opened Wrappers
  import opened Protocol
  import opened Runs
  import R = Reassembly

  /** The state of packet `k` before operation `j` of the run. */
  function Before(ops: seq<Op>, j: nat, k: Key): Option<R.Buffer>
    requires j <= |ops|
  {
    View(Run(map[], ops[..j]), k)
  }

  predicate AcceptedAt(ops: seq<Op>, m: nat)
    requires m < |ops|
  {
    ops[m].Insert? && ReplyAt(map[], ops, m).outcome.Accepted()
  }

  predicate DeliveredAt(ops: seq<Op>, n: nat)
    requires n < |ops|
  {
    ops[n].Insert? && ReplyAt(map[], ops, n).outcome.Delivered?
  }

  function PacketAt(ops: seq<Op>, n: nat): R.Assemblable
    requires n < |ops| && DeliveredAt(ops, n)
  {
    ReplyAt(map[], ops, n).outcome.packet
  }

  /** The buffer of packet `k` is in the table from right after operation `m` until operation `n`. */
  ghost predicate Held(ops: seq<Op>, k: Key, m: nat, n: nat)
    requires n <= |ops|
  {
    forall j :: m < j <= n ==> Before(ops, j, k).Some?
  }

  /**
   * The fragment accepted at `m` goes into the packet delivered at `n`: both belong to the
   * same packet, whose buffer was neither delivered nor dropped in between.
   */
  ghost predicate Contributes(ops: seq<Op>, m: nat, n: nat) {
    && m <= n < |ops|
    && AcceptedAt(ops, m)
    && DeliveredAt(ops, n)
    && KeyOf(ops[m].header) == KeyOf(ops[n].header)
    && Held(ops, KeyOf(ops[n].header), m, n)
  }

  /** The buffer an insertion meets: the one of its packet, or a new one. */
  function MetAt(ops: seq<Op>, m: nat): R.Buffer
    requires m < |ops| && ops[m].Insert?
  {
    var v := Before(ops, m, KeyOf(ops[m].header));
    if v.Some? then v.value else R.NewBuffer(ops[m].header.fragTotal, ops[m].now)
  }

  lemma EffectAt(ops: seq<Op>, m: nat)
    requires m < |ops| && ops[m].Insert?
    ensures var h := ops[m].header;
            && R.Resident(MetAt(ops, m))
            && Before(ops, m + 1, KeyOf(h)) == LocalInsert(Before(ops, m, KeyOf(h)), h, ops[m].data, ops[m].now).0
            && ReplyAt(map[], ops, m) == Inserted(R.InsertBuffer(MetAt(ops, m), h, ops[m].data).1)
  {
    var h := ops[m].header;
    R.NewBufferIsResident(h.fragTotal, ops[m].now);
    ViewIsResident(map[], ops[..m], KeyOf(h));
    RunIsLocal(map[], ops, m, KeyOf(h));
  }

  /** Slot `i` of the buffer of packet `k`, if the buffer is there and has it filled. */
  predicate HasSlot(v: Option<R.Buffer>, i: nat) {
    v.Some? && i < |v.value.slots| && v.value.slots[i].Some?
  }

  predicate SameSlot(v: Option<R.Buffer>, v': Option<R.Buffer>, i: nat)
    requires HasSlot(v, i)
  {
    HasSlot(v', i) && v'.value.slots[i] == v.value.slots[i] && (i == 0 ==> v'.value.addr == v.value.addr)
  }

  // One operation keeps a filled slot as long as it keeps the buffer.
  lemma SlotKept(v: Option<R.Buffer>, op: Op, k: Key, i: nat)
    requires HasSlot(v, i) && LocalStep(v, op, k).Some?
    ensures SameSlot(v, LocalStep(v, op, k), i)
  {
  }

  // A slot found filled was filled before or by this very operation.
  lemma SlotSource(v: Option<R.Buffer>, op: Op, k: Key, i: nat)
    requires HasSlot(LocalStep(v, op, k), i)
    ensures || (HasSlot(v, i) && SameSlot(v, LocalStep(v, op, k), i))
            || (&& Inserts(op, k) && op.header.fragId as int == i
                && LocalInsert(v, op.header, op.data, op.now).1.Accepted()
                && LocalStep(v, op, k).value.slots[i] == Some(op.data)
                && (i == 0 ==> LocalStep(v, op, k).value.addr == op.header.addr))
  {
  }

  /** A filled slot holds the data of a fragment that was accepted for it and has been held since. */
  lemma {:induction false} Provenance(ops: seq<Op>, n: nat, k: Key, i: nat) returns (m: nat)
    requires n <= |ops| && HasSlot(Before(ops, n, k), i)
    ensures m < n && AcceptedAt(ops, m) && KeyOf(ops[m].header) == k && ops[m].header.fragId as int == i
    ensures Before(ops, n, k).value.slots[i] == Some(ops[m].data)
    ensures i == 0 ==> Before(ops, n, k).value.addr == ops[m].header.addr
    ensures Held(ops, k, m, n)
  {
    if n > 0 {
      var v := Before(ops, n - 1, k);
      RunIsLocal(map[], ops, n - 1, k);
      SlotSource(v, ops[n - 1], k, i);
      if HasSlot(v, i) && SameSlot(v, Before(ops, n, k), i) {
        m := Provenance(ops, n - 1, k, i);
      } else {
        m := n - 1;
      }
    }
  }

  // Once filled, a slot stays filled for as long as the buffer is held.
  lemma {:induction false} SlotStaysFilled(ops: seq<Op>, m: nat, n: nat)
    requires m < n <= |ops| && AcceptedAt(ops, m)
    requires Held(ops, KeyOf(ops[m].header), m, n)
    ensures HasSlot(Before(ops, n, KeyOf(ops[m].header)), ops[m].header.fragId)
  {
    var k := KeyOf(ops[m].header);
    assert Before(ops, n, k).Some?;
    if n == m + 1 {
      AcceptedFillsSlot(ops, m);
    } else {
      SlotStaysFilled(ops, m, n - 1);
      SlotKeptAt(ops, n - 1, k, ops[m].header.fragId);
    }
  }

  lemma SlotKeptAt(ops: seq<Op>, j: nat, k: Key, i: nat)
    requires j < |ops| && HasSlot(Before(ops, j, k), i) && Before(ops, j + 1, k).Some?
    ensures HasSlot(Before(ops, j + 1, k), i)
  {
    RunIsLocal(map[], ops, j, k);
    SlotKept(Before(ops, j, k), ops[j], k, i);
  }

  lemma AcceptedFillsSlot(ops: seq<Op>, m: nat)
    requires m < |ops| && AcceptedAt(ops, m)
    requires Before(ops, m + 1, KeyOf(ops[m].header)).Some?
    ensures HasSlot(Before(ops, m + 1, KeyOf(ops[m].header)), ops[m].header.fragId)
  {
    EffectAt(ops, m);
    R.AcceptedEffect(MetAt(ops, m), ops[m].header, ops[m].data);
  }

  // The fragment accepted at `m` contributes to the packet delivered at `n` as number `i`.
  ghost predicate FillsSlot(ops: seq<Op>, m: nat, n: nat, i: int) {
    Contributes(ops, m, n) && ops[m].header.fragId as int == i
  }

  ghost predicate HasSource(ops: seq<Op>, n: nat, i: int) {
    exists m: nat :: FillsSlot(ops, m, n, i)
  }

  /** Every slot of a delivered packet holds the data of a contributing fragment with that fragment id, and the address is that of the first. */
  lemma DeliveredSlot(ops: seq<Op>, n: nat, i: nat) returns (m: nat)
    requires n < |ops| && DeliveredAt(ops, n) && i < |PacketAt(ops, n).slots|
    ensures Contributes(ops, m, n) && ops[m].header.fragId as int == i
    ensures PacketAt(ops, n).slots[i] == Some(ops[m].data)
    ensures i == 0 ==> PacketAt(ops, n).addr == ops[m].header.addr
  {
    EffectAt(ops, n);
    var h := ops[n].header;
    if h.fragId as int == i {
      m := n;
    } else {
      R.AcceptedEffect(MetAt(ops, n), h, ops[n].data);
      m := Provenance(ops, n, KeyOf(h), i);
    }
  }

  lemma ContributorsDiffer(ops: seq<Op>, m1: nat, m2: nat, n: nat)
    requires Contributes(ops, m1, n) && Contributes(ops, m2, n) && m1 < m2
    ensures ops[m1].header.fragId != ops[m2].header.fragId
  {
    SlotStaysFilled(ops, m1, m2);
    EffectAt(ops, m2);
  }

  /**
   * A delivered packet is made of exactly the fragments that contribute to it: one for
   * each slot, which it fills, and none besides; the packet carries their association.
   */
  lemma DeliveredIsMadeOfContributors(ops: seq<Op>, n: nat)
    requires n < |ops| && DeliveredAt(ops, n)
    ensures var p := PacketAt(ops, n);
            && p.assocId == ops[n].header.assocId
            && R.Complete(p)
            && (forall i :: 0 <= i < |p.slots| ==> HasSource(ops, n, i))
            && (forall m: nat :: Contributes(ops, m, n) ==>
                  && ops[m].header.fragId as int < |p.slots|
                  && p.slots[ops[m].header.fragId] == Some(ops[m].data)
                  && (ops[m].header.fragId == 0 ==> p.addr == ops[m].header.addr))
            && (forall m1: nat, m2: nat :: Contributes(ops, m1, n) && Contributes(ops, m2, n) && m1 != m2 ==>
                  ops[m1].header.fragId != ops[m2].header.fragId)
  {
    var p := PacketAt(ops, n);
    EffectAt(ops, n);
    DeliveredIsComplete(map[], ops, n);
    forall i | 0 <= i < |p.slots|
      ensures HasSource(ops, n, i)
    {
      var m := DeliveredSlot(ops, n, i);
      assert FillsSlot(ops, m, n, i);
    }
    forall m1: nat, m2: nat | Contributes(ops, m1, n) && Contributes(ops, m2, n) && m1 != m2
      ensures ops[m1].header.fragId != ops[m2].header.fragId
    {
      if m1 < m2 {
        ContributorsDiffer(ops, m1, m2, n);
      } else {
        ContributorsDiffer(ops, m2, m1, n);
      }
    }
    forall m: nat | Contributes(ops, m, n)
      ensures ops[m].header.fragId as int < |p.slots|
      ensures p.slots[ops[m].header.fragId] == Some(ops[m].data)
      ensures ops[m].header.fragId == 0 ==> p.addr == ops[m].header.addr
    {
      ContributorFitsItsSlot(ops, m, n);
    }
  }

  lemma ContributorFitsItsSlot(ops: seq<Op>, m: nat, n: nat)
    requires Contributes(ops, m, n)
    ensures var p := PacketAt(ops, n);
            && ops[m].header.fragId as int < |p.slots|
            && p.slots[ops[m].header.fragId] == Some(ops[m].data)
            && (ops[m].header.fragId == 0 ==> p.addr == ops[m].header.addr)
  {
    EffectAt(ops, n);
    if m < n {
      SlotStaysFilled(ops, m, n);
      var source := DeliveredSlot(ops, n, ops[m].header.fragId);
      if source < m {
        ContributorsDiffer(ops, source, m, n);
      } else if m < source {
        ContributorsDiffer(ops, m, source, n);
      }
    }
  }

  /** Fragment id `i` of packet `k` was accepted before operation `n` and is still held. */
  ghost predicate HeldFragment(ops: seq<Op>, k: Key, i: u8, m: nat, n: nat) {
    && m < n <= |ops| && AcceptedAt(ops, m)
    && KeyOf(ops[m].header) == k && ops[m].header.fragId == i
    && Held(ops, k, m, n)
  }

  lemma SlotFilledIffHeld(ops: seq<Op>, k: Key, i: u8, n: nat)
    requires n <= |ops|
    ensures HasSlot(Before(ops, n, k), i) <==> exists m: nat :: HeldFragment(ops, k, i, m, n)
  {
    if HasSlot(Before(ops, n, k), i) {
      var m := Provenance(ops, n, k, i);
      assert HeldFragment(ops, k, i, m, n);
    }
    if m: nat :| HeldFragment(ops, k, i, m, n) {
      SlotStaysFilled(ops, m, n);
    }
  }

  /** In every run a fragment is refused as a duplicate exactly when its own header is in order and a fragment of that packet and id was accepted earlier and is still held. */
  lemma DuplicateIff(ops: seq<Op>, n: nat)
    requires n < |ops| && ops[n].Insert?
    ensures var h := ops[n].header;
            ReplyAt(map[], ops, n) == Inserted(R.Rejected(R.DuplicatedFragment(h.fragId))) <==>
            && |ops[n].data| == h.size as int && h.fragId < h.fragTotal
            && (h.fragId == 0 <==> !h.addr.NoAddress?)
            && exists m: nat :: HeldFragment(ops, KeyOf(h), h.fragId, m, n)
  {
    EffectAt(ops, n);
    SlotFilledIffHeld(ops, KeyOf(ops[n].header), ops[n].header.fragId, n);
  }

  /** No accepted fragment goes into two deliveries. */
  lemma OneDeliveryPerFragment(ops: seq<Op>, m: nat, n1: nat, n2: nat)
    requires Contributes(ops, m, n1) && Contributes(ops, m, n2)
    ensures n1 == n2
  {
    if n1 < n2 {
      EffectAt(ops, n1);
    } else if n2 < n1 {
      EffectAt(ops, n2);
    }
  }

  /** Whether operation `j` drops the buffer of packet `k`, with the fragments in it. */
  predicate DropsAt(ops: seq<Op>, j: nat, k: Key)
    requires j < |ops|
  {
    || ops[j] == Op.Dissociate(k.assocId)
    || (&& ops[j].Collect?
        && Before(ops, j, k).Some?
        && R.Elapsed(ops[j].clock(k.assocId)(k.pktId), Before(ops, j, k).value.cTime) >= ops[j].timeout)
  }

  /** A fragment accepted before its packet was dissociated or collected goes into no later delivery. */
  lemma DroppedIsNeverDelivered(ops: seq<Op>, m: nat, j: nat, n: nat)
    requires m < j < n < |ops| && ops[m].Insert?
    requires DropsAt(ops, j, KeyOf(ops[m].header))
    ensures !Contributes(ops, m, n)
  {
    RunIsLocal(map[], ops, j, KeyOf(ops[m].header));
    assert Before(ops, j + 1, KeyOf(ops[m].header)).None?;
  }
}
