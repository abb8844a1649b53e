// The objects do what the runs say: performing any sequence of operations on the session
// table leaves it as the value-level run does and gives the same replies.
module Refinement {
  import opened Runs
  import R = Reassembly
  import U = UdpSessions

  method Perform(sessions: U.UdpSessions, op: Op) returns (reply: Reply)
    requires sessions.Valid()
    modifies sessions, sessions.Repr
    ensures sessions.Valid() && fresh(sessions.Repr - old(sessions.Repr))
    ensures sessions.view == Step(old(sessions.view), op).0
    ensures reply == Step(old(sessions.view), op).1
  {
    if op.SendPacket? {
      var pktId := sessions.SendPacket(op.assocId);
      reply := Sent(pktId);
    } else if op.Insert? {
      var out := sessions.Insert(op.header, op.data, op.now);
      reply := Inserted(out);
    } else {
      Apply(sessions, op);
      reply := Done;
    }
  }

  // The operations that reply nothing.
  method Apply(sessions: U.UdpSessions, op: Op)
    requires sessions.Valid()
    requires op.RecvPacket? || op.Dissociate? || op.Collect?
    modifies sessions, sessions.Repr
    ensures sessions.Valid() && fresh(sessions.Repr - old(sessions.Repr))
    ensures sessions.view == Step(old(sessions.view), op).0
  {
    if op.RecvPacket? {
      sessions.RecvPacketUnrestricted(op.assocId);
    } else if op.Dissociate? {
      sessions.Dissociate(op.assocId);
    } else {
      sessions.CollectGarbage(op.timeout, op.clock);
    }
  }

  // What holds of the table and the replies after `i` operations.
  ghost predicate AgreesAt(view: R.Table, replies: seq<Reply>, ops: seq<Op>, i: nat) {
    && |replies| == i <= |ops|
    && view == Run(map[], ops[..i])
    && forall j :: 0 <= j < i ==> replies[j] == ReplyAt(map[], ops, j)
  }

  lemma AgreesOneMore(view: R.Table, replies: seq<Reply>, ops: seq<Op>, i: nat)
    requires i < |ops| && AgreesAt(view, replies, ops, i)
    ensures AgreesAt(Step(view, ops[i]).0, replies + [Step(view, ops[i]).1], ops, i + 1)
  {
    RunStep(map[], ops, i);
  }

  /** From an empty table, the objects and the value-level run agree after any operations, and the task counter is the number of sessions. */
  method PerformAll(ops: seq<Op>) returns (sessions: U.UdpSessions, replies: seq<Reply>)
    ensures fresh(sessions) && sessions.Valid()
    ensures sessions.view == Run(map[], ops)
    ensures |replies| == |ops| && forall i :: 0 <= i < |ops| ==> replies[i] == ReplyAt(map[], ops, i)
    ensures sessions.taskAssociateCount == |sessions.view.Keys|
  {
    sessions := new U.UdpSessions();
    replies := [];
    for i := 0 to |ops|
      invariant fresh(sessions) && fresh(sessions.Repr) && sessions.Valid()
      invariant AgreesAt(sessions.view, replies, ops, i)
    {
      AgreesOneMore(sessions.view, replies, ops, i);
      var reply := Perform(sessions, ops[i]);
      replies := replies + [reply];
    }
    assert ops[..|ops|] == ops;
  }
}
