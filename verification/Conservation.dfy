// No accepted fragment is lost track of: each is delivered, still held, or was dropped.
module Conservation {
  import opened Protocol
  import opened Runs
  import R = Reassembly

  /** The sum of `f` over the values of a map. */
  ghost function Total<V(!new)>(m: map<u16, V>, f: V -> nat): nat
    decreases |m|
  {
    if m == map[] then 0
    else
      var k :| k in m;
      assert m.Keys == (m - {k}).Keys + {k};
      f(m[k]) + Total(m - {k}, f)
  }

  lemma {:induction false} TotalWithout<V(!new)>(m: map<u16, V>, f: V -> nat, k: u16)
    requires k in m
    ensures Total(m, f) == f(m[k]) + Total(m - {k}, f)
    decreases |m|
  {
    var picked :| picked in m && Total(m, f) == f(m[picked]) + Total(m - {picked}, f);
    if picked != k {
      assert m.Keys == (m - {picked}).Keys + {picked};
      assert m.Keys == (m - {k}).Keys + {k};
      TotalWithout(m - {picked}, f, k);
      TotalWithout(m - {k}, f, picked);
      assert m - {picked} - {k} == m - {k} - {picked};
    }
  }

  lemma TotalOfUpdate<V(!new)>(m: map<u16, V>, f: V -> nat, k: u16, v: V)
    ensures Total(m[k := v], f) == f(v) + Total(m - {k}, f)
    ensures Total(m, f) == (if k in m then f(m[k]) else 0) + Total(m - {k}, f)
  {
    TotalWithout(m[k := v], f, k);
    assert m[k := v] - {k} == m - {k};
    if k in m {
      TotalWithout(m, f, k);
    } else {
      assert m - {k} == m;
    }
  }

  // The values of `m` split into those of `m1` and those of `m2`.
  lemma {:induction false} TotalOfSplit<V(!new)>(m: map<u16, V>, m1: map<u16, V>, m2: map<u16, V>, f: V -> nat)
    requires forall k :: k in m <==> k in m1 || k in m2
    requires forall k :: k in m1 ==> k !in m2 && m1[k] == m[k]
    requires forall k :: k in m2 ==> m2[k] == m[k]
    ensures Total(m, f) == Total(m1, f) + Total(m2, f)
    decreases |m|
  {
    if m == map[] {
      assert m1 == map[] && m2 == map[];
    } else {
      var k :| k in m;
      assert m.Keys == (m - {k}).Keys + {k};
      TotalWithout(m, f, k);
      TotalOfSplit(m - {k}, m1 - {k}, m2 - {k}, f);
      if k in m1 {
        TotalWithout(m1, f, k);
        assert m2 - {k} == m2;
      } else {
        TotalWithout(m2, f, k);
        assert m1 - {k} == m1;
      }
    }
  }

  // Every value of `m` is worth those of `m1` and `m2` at the same key together.
  lemma {:induction false} TotalOfPairs<V(!new)>(m: map<u16, V>, m1: map<u16, V>, m2: map<u16, V>, f: V -> nat)
    requires m1.Keys == m2.Keys == m.Keys
    requires forall k :: k in m ==> f(m[k]) == f(m1[k]) + f(m2[k])
    ensures Total(m, f) == Total(m1, f) + Total(m2, f)
    decreases |m|
  {
    if m == map[] {
      assert m1 == map[] && m2 == map[];
    } else {
      var k :| k in m;
      assert m.Keys == (m - {k}).Keys + {k};
      TotalWithout(m, f, k);
      TotalWithout(m1, f, k);
      TotalWithout(m2, f, k);
      TotalOfPairs(m - {k}, m1 - {k}, m2 - {k}, f);
    }
  }

  // Fragments held by a buffer, a session, the table.

  function HeldByBuffer(b: R.Buffer): nat {
    b.fragReceived
  }

  ghost function HeldBySession(s: R.Session): nat {
    Total(s.pktBuf, HeldByBuffer)
  }

  ghost function Held(t: R.Table): nat {
    Total(t, HeldBySession)
  }

  /** The buffers a pass removes, session by session. */
  function Expired(t: R.Table, timeout: nat, clock: u16 -> u16 -> nat): R.Table {
    map a | a in t :: t[a].(pktBuf :=
      map p | p in t[a].pktBuf && R.Elapsed(clock(a)(p), t[a].pktBuf[p].cTime) >= timeout :: t[a].pktBuf[p])
  }

  // What one operation accepts, delivers and drops, counted in fragments.

  function Accepts(t: R.Table, op: Op): nat {
    if op.Insert? && Step(t, op).1.outcome.Accepted() then 1 else 0
  }

  function Delivers(t: R.Table, op: Op): nat {
    if op.Insert? && Step(t, op).1.outcome.Delivered? then |Step(t, op).1.outcome.packet.slots| else 0
  }

  ghost function Drops(t: R.Table, op: Op): nat {
    match op
    case Dissociate(a) => if a in t then HeldBySession(t[a]) else 0
    case Collect(timeout, clock) => Held(Expired(t, timeout, clock))
    case _ => 0
  }

  lemma BufferBalance(b: R.Buffer, h: PacketHeader, data: Bytes)
    requires R.Resident(b)
    ensures var (b', out) := R.InsertBuffer(b, h, data);
            b.fragReceived + (if out.Accepted() then 1 else 0) ==
            if out.Delivered? then |out.packet.slots| else b'.fragReceived
  {
  }

  lemma SessionBalance(s: R.Session, h: PacketHeader, data: Bytes, now: nat)
    requires R.ResidentSession(s)
    ensures var (s', out) := R.InsertSession(s, h, data, now);
            HeldBySession(s) + (if out.Accepted() then 1 else 0) ==
            HeldBySession(s') + (if out.Delivered? then |out.packet.slots| else 0)
  {
    var b := R.OpenBuffer(s, h, now);
    R.InsertKeepsSession(s, h, data, now);
    BufferBalance(b, h, data);
    var b' := R.InsertBuffer(b, h, data).0;
    TotalOfUpdate(s.pktBuf, HeldByBuffer, h.pktId, b');
    var ready := s.pktBuf[h.pktId := b];
    assert ready - {h.pktId} == s.pktBuf - {h.pktId};
    assert ready[h.pktId := b'] == s.pktBuf[h.pktId := b'];
  }

  lemma CollectionBalance(t: R.Table, timeout: nat, clock: u16 -> u16 -> nat)
    ensures Held(t) == Held(R.Collect(t, timeout, clock)) + Held(Expired(t, timeout, clock))
  {
    var kept, gone := R.Collect(t, timeout, clock), Expired(t, timeout, clock);
    forall a | a in t
      ensures HeldBySession(t[a]) == HeldBySession(kept[a]) + HeldBySession(gone[a])
    {
      TotalOfSplit(t[a].pktBuf, kept[a].pktBuf, gone[a].pktBuf, HeldByBuffer);
    }
    TotalOfPairs(t, kept, gone, HeldBySession);
  }

  lemma OpenSessionHolds(t: R.Table, a: u16)
    ensures Held(R.OpenSession(t, a)) == Held(t)
  {
    TotalOfUpdate(t, HeldBySession, a, R.NewSession);
    assert HeldBySession(R.NewSession) == 0;
  }

  /** One operation changes what is held by exactly what it accepts, delivers and drops. */
  lemma StepBalance(t: R.Table, op: Op)
    requires R.ResidentTable(t)
    ensures Held(t) + Accepts(t, op) == Held(Step(t, op).0) + Delivers(t, op) + Drops(t, op)
  {
    match op {
      case SendPacket(a) =>
        var ready := R.OpenSession(t, a);
        OpenSessionHolds(t, a);
        TotalOfUpdate(ready, HeldBySession, a, R.AfterSend(ready[a]));
      case RecvPacket(a) =>
        OpenSessionHolds(t, a);
      case Insert(h, data, now) =>
        var ready := R.OpenSession(t, h.assocId);
        OpenSessionHolds(t, h.assocId);
        SessionBalance(ready[h.assocId], h, data, now);
        TotalOfUpdate(ready, HeldBySession, h.assocId, R.InsertSession(ready[h.assocId], h, data, now).0);
      case Dissociate(a) =>
        TotalOfUpdate(t, HeldBySession, a, R.NewSession);
      case Collect(timeout, clock) =>
        CollectionBalance(t, timeout, clock);
    }
  }

  // The same over a whole run.

  function AcceptedFragments(t: R.Table, ops: seq<Op>): nat {
    if ops == [] then 0
    else
      var front := ops[..|ops| - 1];
      AcceptedFragments(t, front) + Accepts(Run(t, front), ops[|ops| - 1])
  }

  function DeliveredFragments(t: R.Table, ops: seq<Op>): nat {
    if ops == [] then 0
    else
      var front := ops[..|ops| - 1];
      DeliveredFragments(t, front) + Delivers(Run(t, front), ops[|ops| - 1])
  }

  ghost function DroppedFragments(t: R.Table, ops: seq<Op>): nat {
    if ops == [] then 0
    else
      var front := ops[..|ops| - 1];
      DroppedFragments(t, front) + Drops(Run(t, front), ops[|ops| - 1])
  }

  /** In every run, what was held and accepted is what was delivered, what was dropped and what is still held. */
  lemma {:induction false} FragmentsAreConserved(t: R.Table, ops: seq<Op>)
    requires R.ResidentTable(t)
    ensures Held(t) + AcceptedFragments(t, ops) ==
            DeliveredFragments(t, ops) + DroppedFragments(t, ops) + Held(Run(t, ops))
  {
    if ops != [] {
      var front := ops[..|ops| - 1];
      FragmentsAreConserved(t, front);
      ReachableIsResident(t, front);
      StepBalance(Run(t, front), ops[|ops| - 1]);
    }
  }

  /** From an empty table every accepted fragment is delivered, dropped or still held. */
  lemma NothingIsLost(ops: seq<Op>)
    ensures AcceptedFragments(map[], ops) ==
            DeliveredFragments(map[], ops) + DroppedFragments(map[], ops) + Held(Run(map[], ops))
  {
    FragmentsAreConserved(map[], ops);
  }
}
