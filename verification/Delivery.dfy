// What happens to one packet whose fragments arrive in any order, with repetitions, in the
// middle of any other activity of the table.
module Delivery {
  import opened Wrappers
  import opened Protocol
  import opened Runs
  import R = Reassembly

  function Below(n: nat): (s: set<nat>)
    ensures forall i: nat :: i in s <==> i < n
  {
    if n == 0 then {} else Below(n - 1) + {n - 1}
  }

  /** A packet in fragments. */
  datatype Incoming = Incoming(key: Key, addr: Address, parts: seq<Bytes>)
  {
    predicate WellFormed() {
      && 0 < |parts| <= 0xff
      && !addr.NoAddress?
      && forall i :: 0 <= i < |parts| ==> |parts[i]| <= 0xffff
    }

    function FragHeader(i: nat): PacketHeader
      requires WellFormed() && i < |parts|
    {
      PacketHeader(key.assocId, key.pktId, |parts|, i, |parts[i]|, if i == 0 then addr else NoAddress)
    }

    /** Operation `op` inserts fragment `i` of the packet. */
    predicate Arrives(op: Op, i: nat)
      requires WellFormed()
    {
      op.Insert? && i < |parts| && op.header == FragHeader(i) && op.data == parts[i]
    }

    /** If `op` is about this packet at all, it inserts one of its fragments. */
    predicate Genuine(op: Op)
      requires WellFormed()
    {
      Inserts(op, key) ==> Arrives(op, op.header.fragId)
    }

    function All(): set<nat> {
      Below(|parts|)
    }

    /** The slots when the fragments with these ids have arrived. */
    function Slots(seen: set<nat>): seq<Option<Bytes>> {
      seq(|parts|, i requires 0 <= i < |parts| => if i in seen then Some(parts[i]) else None)
    }

    /** The packet as it is handed over. */
    function Whole(): R.Assemblable {
      R.Assemblable(Slots(All()), addr, key.assocId)
    }

    function BufferOf(seen: set<nat>, cTime: nat): R.Buffer {
      R.Buffer(Slots(seen), |parts| % 0x100, R.Filled(Slots(seen)), if 0 in seen then addr else NoAddress, cTime)
    }
  }

  /** The fragment ids of packet `k` inserted so far. */
  function Seen(ops: seq<Op>, k: Key): set<nat> {
    if ops == [] then {}
    else
      var last := ops[|ops| - 1];
      Seen(ops[..|ops| - 1], k) + (if Inserts(last, k) then {last.header.fragId} else {})
  }

  lemma {:induction false} SeenIff(ops: seq<Op>, k: Key, i: nat)
    ensures i in Seen(ops, k) <==>
            exists j :: 0 <= j < |ops| && Inserts(ops[j], k) && ops[j].header.fragId as int == i
  {
    if ops != [] {
      var front := ops[..|ops| - 1];
      SeenIff(front, k, i);
      if i in Seen(front, k) {
        var j :| 0 <= j < |front| && Inserts(front[j], k) && front[j].header.fragId as int == i;
        assert ops[j] == front[j];
      }
      if j :| 0 <= j < |ops| && Inserts(ops[j], k) && ops[j].header.fragId as int == i && j < |front| {
        assert front[j] == ops[j];
      }
    }
  }

  /** When the first fragment of packet `k` was inserted. */
  function FirstTime(ops: seq<Op>, k: Key): nat
    requires Seen(ops, k) != {}
  {
    var front := ops[..|ops| - 1];
    if Seen(front, k) != {} then FirstTime(front, k) else ops[|ops| - 1].now
  }

  lemma SeenStep(ops: seq<Op>, n: nat, k: Key)
    requires n < |ops|
    ensures Seen(ops[..n + 1], k) ==
            if Inserts(ops[n], k) then Seen(ops[..n], k) + {ops[n].header.fragId as nat} else Seen(ops[..n], k)
    ensures Seen(ops[..n + 1], k) != {} ==>
              FirstTime(ops[..n + 1], k) ==
              if Seen(ops[..n], k) != {} then FirstTime(ops[..n], k) else ops[n].now
  {
    assert ops[..n + 1][..n] == ops[..n];
  }

  /** Operation `op`, coming after `ops`, drops no fragment of packet `k` seen so far: there is none, or it neither dissociates nor finds it expired. */
  predicate Spares(ops: seq<Op>, op: Op, k: Key) {
    Seen(ops, k) != {} ==>
      && op != Op.Dissociate(k.assocId)
      && (op.Collect? ==> R.Elapsed(op.clock(k.assocId)(k.pktId), FirstTime(ops, k)) < op.timeout)
  }

  /** Up to operation `n` the packet is undisturbed: genuine fragments only, and none of them dropped. */
  ghost predicate Undisturbed(ops: seq<Op>, p: Incoming, n: nat)
    requires p.WellFormed() && n <= |ops|
  {
    forall j :: 0 <= j < n ==> p.Genuine(ops[j]) && Spares(ops[..j], ops[j], p.key)
  }

  /** The buffer of the packet while it is incomplete. */
  function Expected(ops: seq<Op>, p: Incoming): Option<R.Buffer> {
    var seen := Seen(ops, p.key);
    if seen == {} then None else Some(p.BufferOf(seen, FirstTime(ops, p.key)))
  }

  lemma SlotsFull(p: Incoming, seen: set<nat>)
    requires seen <= p.All()
    ensures R.Filled(p.Slots(seen)) == |p.parts| <==> seen == p.All()
  {
    R.FullIffAllFilled(p.Slots(seen));
    if R.Filled(p.Slots(seen)) == |p.parts| {
      forall i: nat | i < |p.parts|
        ensures i in seen
      {
        assert p.Slots(seen)[i].Some?;
      }
    }
  }

  lemma NothingSeen(p: Incoming, now: nat)
    requires p.WellFormed()
    ensures R.NewBuffer(|p.parts|, now) == p.BufferOf({}, now)
  {
    assert p.Slots({}) == seq(|p.parts|, _ => None);
    R.NoneFilled(|p.parts|);
  }

  lemma FilledByFragment(p: Incoming, seen: set<nat>, i: nat)
    requires i < |p.parts| && i !in seen
    ensures p.Slots(seen)[i := Some(p.parts[i])] == p.Slots(seen + {i})
    ensures R.Filled(p.Slots(seen + {i})) == R.Filled(p.Slots(seen)) + 1
  {
    assert p.Slots(seen)[i := Some(p.parts[i])] == p.Slots(seen + {i});
    R.FilledOnUpdate(p.Slots(seen), i, p.parts[i]);
  }

  /** One more genuine fragment: refused if it was there, and otherwise added, completing the packet when it was the last one missing. */
  lemma OneMoreFragment(p: Incoming, seen: set<nat>, cTime: nat, i: nat)
    requires p.WellFormed() && seen < p.All() && i < |p.parts|
    ensures var (b, out) := R.InsertBuffer(p.BufferOf(seen, cTime), p.FragHeader(i), p.parts[i]);
            && (i in seen ==> out == R.Rejected(R.DuplicatedFragment(i)) && b == p.BufferOf(seen, cTime))
            && (i !in seen && seen + {i} == p.All() ==> out == R.Delivered(p.Whole()))
            && (i !in seen && seen + {i} != p.All() ==> out == R.Pending && b == p.BufferOf(seen + {i}, cTime))
  {
    if i !in seen {
      FilledByFragment(p, seen, i);
      SlotsFull(p, seen + {i});
    }
  }

  lemma {:induction false} SeenWithinPacket(ops: seq<Op>, p: Incoming)
    requires p.WellFormed() && forall j :: 0 <= j < |ops| ==> p.Genuine(ops[j])
    ensures Seen(ops, p.key) <= p.All()
  {
    if ops != [] {
      SeenWithinPacket(ops[..|ops| - 1], p);
      assert p.Genuine(ops[|ops| - 1]);
    }
  }

  lemma IncompleteEarlier(ops: seq<Op>, p: Incoming, n: nat)
    requires p.WellFormed() && n < |ops| && forall j :: 0 <= j <= n ==> p.Genuine(ops[j])
    requires Seen(ops[..n + 1], p.key) != p.All()
    ensures Seen(ops[..n], p.key) < p.All() && Seen(ops[..n + 1], p.key) < p.All()
  {
    SeenStep(ops, n, p.key);
    SeenWithinPacket(ops[..n + 1], p);
  }

  /** Until all fragments have been seen, the buffer holds exactly those that have. */
  lemma {:induction false} BufferHoldsSeen(t: R.Table, ops: seq<Op>, p: Incoming, n: nat)
    requires p.WellFormed() && n <= |ops| && Undisturbed(ops, p, n)
    requires View(t, p.key).None?
    requires Seen(ops[..n], p.key) != p.All()
    ensures View(Run(t, ops[..n]), p.key) == Expected(ops[..n], p)
    ensures Seen(ops[..n], p.key) < p.All()
  {
    if n == 0 {
      assert ops[..0] == [];
      assert 0 in p.All();
    } else {
      var op := ops[n - 1];
      assert p.Genuine(op) && Spares(ops[..n - 1], op, p.key);
      IncompleteEarlier(ops, p, n - 1);
      BufferHoldsSeen(t, ops, p, n - 1);
      if Inserts(op, p.key) {
        ArrivalAt(t, ops, p, n - 1);
      } else {
        QuietAt(t, ops, p, n - 1);
      }
    }
  }

  // An operation that inserts no fragment of the packet leaves its buffer alone.
  lemma QuietAt(t: R.Table, ops: seq<Op>, p: Incoming, n: nat)
    requires p.WellFormed() && n < |ops| && p.Genuine(ops[n]) && !Inserts(ops[n], p.key)
    requires Spares(ops[..n], ops[n], p.key)
    requires View(Run(t, ops[..n]), p.key) == Expected(ops[..n], p)
    ensures View(Run(t, ops[..n + 1]), p.key) == Expected(ops[..n + 1], p)
  {
    SeenStep(ops, n, p.key);
    RunIsLocal(t, ops, n, p.key);
    assert LocalStep(Expected(ops[..n], p), ops[n], p.key) == Expected(ops[..n], p);
  }

  // What a genuine fragment meets and does, given what the buffer holds.
  lemma ArrivalAt(t: R.Table, ops: seq<Op>, p: Incoming, n: nat)
    requires p.WellFormed() && n < |ops| && p.Genuine(ops[n]) && Inserts(ops[n], p.key)
    requires View(Run(t, ops[..n]), p.key) == Expected(ops[..n], p)
    requires Seen(ops[..n], p.key) < p.All()
    ensures var i := ops[n].header.fragId;
            var before, after := Seen(ops[..n], p.key), Seen(ops[..n + 1], p.key);
            && after == before + {i as nat}
            && ReplyAt(t, ops, n) == Inserted(
                 if i as nat in before then R.Rejected(R.DuplicatedFragment(i))
                 else if after == p.All() then R.Delivered(p.Whole())
                 else R.Pending)
            && View(Run(t, ops[..n + 1]), p.key) ==
               if after == p.All() then None else Expected(ops[..n + 1], p)
  {
    var op := ops[n];
    var seen := Seen(ops[..n], p.key);
    SeenStep(ops, n, p.key);
    RunIsLocal(t, ops, n, p.key);
    NothingSeen(p, op.now);
    assert op.header.fragId as nat in seen ==> seen + {op.header.fragId as nat} == seen;
    OneMoreFragment(p, seen, if seen == {} then op.now else FirstTime(ops[..n], p.key), op.header.fragId);
  }

  /**
   * Order and repetition do not matter: a fragment seen before is refused as a duplicate,
   * any other is accepted, and the packet is delivered, whole, at the first moment every
   * fragment has been seen; then its buffer is gone.
   */
  lemma DeliveredAtFirstCompletion(t: R.Table, ops: seq<Op>, p: Incoming, n: nat)
    requires p.WellFormed() && n < |ops| && Undisturbed(ops, p, n) && p.Genuine(ops[n])
    requires View(t, p.key).None?
    requires Seen(ops[..n], p.key) != p.All()
    requires Inserts(ops[n], p.key)
    ensures var i := ops[n].header.fragId;
            var complete := Seen(ops[..n + 1], p.key) == p.All();
            && ReplyAt(t, ops, n) == Inserted(
                 if i as nat in Seen(ops[..n], p.key) then R.Rejected(R.DuplicatedFragment(i))
                 else if complete then R.Delivered(p.Whole())
                 else R.Pending)
            && (complete ==> View(Run(t, ops[..n + 1]), p.key).None?)
  {
    BufferHoldsSeen(t, ops, p, n);
    ArrivalAt(t, ops, p, n);
  }

  /** Every fragment of the packet is inserted exactly once in the run. */
  ghost predicate EachOnce(ops: seq<Op>, p: Incoming)
    requires p.WellFormed()
  {
    && (forall i :: i in p.All() ==> i in Seen(ops, p.key))
    && (forall j1, j2 :: 0 <= j1 < j2 < |ops| && Inserts(ops[j1], p.key) && Inserts(ops[j2], p.key) ==>
          ops[j1].header.fragId != ops[j2].header.fragId)
  }

  /** While some fragments have been seen but not all, the packet is neither dissociated nor found expired. */
  ghost predicate SparedThroughout(ops: seq<Op>, p: Incoming) {
    forall j :: 0 <= j < |ops| && Seen(ops[..j], p.key) != p.All() ==> Spares(ops[..j], ops[j], p.key)
  }

  /** Operation `n` is the last to insert a fragment of the packet. */
  ghost predicate LastArrival(ops: seq<Op>, k: Key, n: nat) {
    n < |ops| && Inserts(ops[n], k) && forall j :: n < j < |ops| ==> !Inserts(ops[j], k)
  }

  lemma {:induction false} FindLast(ops: seq<Op>, k: Key) returns (n: nat)
    requires Seen(ops, k) != {}
    ensures LastArrival(ops, k, n)
  {
    n := |ops| - 1;
    if !Inserts(ops[n], k) {
      n := FindLast(ops[..|ops| - 1], k);
    }
  }

  // Before its last arrival the packet is incomplete, and undisturbed.
  lemma IncompleteBeforeLast(ops: seq<Op>, p: Incoming, n: nat, j: nat)
    requires p.WellFormed() && EachOnce(ops, p) && LastArrival(ops, p.key, n) && j <= n
    requires p.Genuine(ops[n])
    ensures Seen(ops[..j], p.key) != p.All()
  {
    var last: nat := ops[n].header.fragId;
    assert last in p.All();
    SeenIff(ops[..j], p.key, last);
  }

  lemma AbsentStep(t: R.Table, ops: seq<Op>, k: Key, n: nat)
    requires 0 < n <= |ops| && !Inserts(ops[n - 1], k)
    requires View(Run(t, ops[..n - 1]), k).None?
    ensures View(Run(t, ops[..n]), k).None?
  {
    RunIsLocal(t, ops, n - 1, k);
  }

  lemma {:induction false} StaysAbsent(t: R.Table, ops: seq<Op>, k: Key, n: nat, m: nat)
    requires n <= m <= |ops|
    requires View(Run(t, ops[..n]), k).None?
    requires forall j :: n <= j < |ops| ==> !Inserts(ops[j], k)
    ensures View(Run(t, ops[..m]), k).None?
  {
    if n < m {
      StaysAbsent(t, ops, k, n, m - 1);
      AbsentStep(t, ops, k, m);
    }
  }

  /**
   * Exactly one delivery: when every fragment is inserted once, in any order and in the
   * middle of anything else, all insertions but the last are pending, the last delivers
   * the whole packet, and no buffer of the packet remains.
   */
  lemma DeliveredExactlyOnce(t: R.Table, ops: seq<Op>, p: Incoming)
    requires p.WellFormed() && View(t, p.key).None?
    requires forall j :: 0 <= j < |ops| ==> p.Genuine(ops[j])
    requires EachOnce(ops, p) && SparedThroughout(ops, p)
    ensures exists n :: LastArrival(ops, p.key, n)
    ensures forall n :: 0 <= n < |ops| && Inserts(ops[n], p.key) ==>
              ReplyAt(t, ops, n) ==
              Inserted(if LastArrival(ops, p.key, n) then R.Delivered(p.Whole()) else R.Pending)
    ensures View(Run(t, ops), p.key).None?
  {
    assert 0 in p.All();
    var last := FindLast(ops, p.key);
    forall j | 0 <= j <= last
      ensures Seen(ops[..j], p.key) != p.All()
    {
      IncompleteBeforeLast(ops, p, last, j);
    }
    assert Undisturbed(ops, p, last);
    forall n | 0 <= n < |ops| && Inserts(ops[n], p.key)
      ensures LastArrival(ops, p.key, n) <==> n == last
      ensures ReplyAt(t, ops, n) == Inserted(if n == last then R.Delivered(p.Whole()) else R.Pending)
      ensures n == last ==> View(Run(t, ops[..n + 1]), p.key).None?
    {
      ArrivalInOrder(t, ops, p, last, n);
    }
    StaysAbsent(t, ops, p.key, last + 1, |ops|);
    assert ops[..|ops|] == ops;
  }

  lemma ArrivalInOrder(t: R.Table, ops: seq<Op>, p: Incoming, last: nat, n: nat)
    requires p.WellFormed() && View(t, p.key).None?
    requires forall j :: 0 <= j < |ops| ==> p.Genuine(ops[j])
    requires EachOnce(ops, p) && LastArrival(ops, p.key, last) && Undisturbed(ops, p, last)
    requires n < |ops| && Inserts(ops[n], p.key)
    ensures n <= last
    ensures ReplyAt(t, ops, n) == Inserted(if n == last then R.Delivered(p.Whole()) else R.Pending)
    ensures n == last ==> View(Run(t, ops[..n + 1]), p.key).None?
  {
    var i: nat := ops[n].header.fragId;
    SeenIff(ops[..n], p.key, i);
    IncompleteBeforeLast(ops, p, last, n);
    DeliveredAtFirstCompletion(t, ops, p, n);
    if n < last {
      IncompleteBeforeLast(ops, p, last, n + 1);
    } else {
      SeenWithinPacket(ops[..n + 1], p);
      forall i: nat | i in p.All()
        ensures i in Seen(ops[..n + 1], p.key)
      {
        SeenIff(ops, p.key, i);
        SeenIff(ops[..n + 1], p.key, i);
        var j :| 0 <= j < |ops| && Inserts(ops[j], p.key) && ops[j].header.fragId as int == i;
        assert ops[..n + 1][j] == ops[j];
      }
    }
  }
}
