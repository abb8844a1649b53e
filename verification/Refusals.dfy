// What becomes of a fragment that is handed to the table, told from its own header and from
// what was accepted before, in any run that starts with an empty table.
module Refusals {
  import opened Protocol
  import opened Runs
  import opened Relay
  import opened EndToEnd
  import I = Integrity
  import R = Reassembly

  /** Fragment `i` of packet `k` was accepted before operation `n` and is still held. */
  ghost predicate StillHeld(ops: seq<Op>, k: Key, i: u8, n: nat) {
    exists m: nat :: I.HeldFragment(ops, k, i, m, n)
  }

  /** The number of fragments the packet is put together for: that of the buffer it is held in, or the fragment's own when there is none. */
  function TotalAt(ops: seq<Op>, n: nat): u8
    requires n < |ops| && ops[n].Insert?
  {
    var v := View(Run(map[], ops[..n]), KeyOf(ops[n].header));
    if v.Some? then v.value.fragTotal else ops[n].header.fragTotal
  }

  predicate Sized(op: Op)
    requires op.Insert?
  {
    |op.data| == op.header.size as int
  }

  /** The fragment's own header is in order. */
  predicate InOrderItself(op: Op)
    requires op.Insert?
  {
    && Sized(op)
    && op.header.fragId < op.header.fragTotal
    && (op.header.fragId == 0 <==> !op.header.addr.NoAddress?)
  }

  lemma SlotsHeld(ops: seq<Op>, n: nat, i: u8)
    requires n < |ops| && ops[n].Insert? && i < TotalAt(ops, n)
    ensures |I.MetAt(ops, n).slots| == TotalAt(ops, n) as int == I.MetAt(ops, n).fragTotal as int
    ensures I.MetAt(ops, n).slots[i].Some? <==> StillHeld(ops, KeyOf(ops[n].header), i, n)
  {
    I.EffectAt(ops, n);
    I.SlotFilledIffHeld(ops, KeyOf(ops[n].header), i, n);
  }

  lemma HandedFromReply(ops: seq<Op>, n: nat)
    requires n < |ops| && ops[n].Insert?
    ensures var handed, out := HandedAt(map[], ops, n), ReplyAt(map[], ops, n).outcome;
            && ReplyAt(map[], ops, n) == Inserted(out)
            && (handed.Received? <==> out.Delivered?)
            && (handed == NotYet <==> out == R.Pending)
            && (forall e :: handed == AssembleFailed(e) <==> out == R.Rejected(e))
            && (forall p :: handed == Aborted(p) <==> out == R.Panicked(p))
  {
  }

  /** A fragment whose header is not in order is refused for the first thing that is wrong with it. */
  lemma RefusedForItself(ops: seq<Op>, n: nat)
    requires n < |ops| && ops[n].Insert?
    ensures var h, handed := ops[n].header, HandedAt(map[], ops, n);
            && (handed == Aborted(R.SizeMismatch) <==> !Sized(ops[n]))
            && (handed == AssembleFailed(R.InvalidFragmentId(h.fragTotal, h.fragId)) <==>
                  Sized(ops[n]) && h.fragTotal <= h.fragId)
            && (handed == AssembleFailed(R.NoAddressInFirstFragment) <==>
                  Sized(ops[n]) && 0 == h.fragId < h.fragTotal && h.addr.NoAddress?)
            && (handed == AssembleFailed(R.AddressInNonFirstFragment) <==>
                  Sized(ops[n]) && 0 < h.fragId < h.fragTotal && !h.addr.NoAddress?)
  {
    HandedFromReply(ops, n);
    I.EffectAt(ops, n);
  }

  /**
   * A fragment whose header is in order indexes past the slots when the packet is put
   * together for fewer, is refused as a duplicate when its id is still held, and otherwise
   * is accepted; it completes the packet exactly when every other id is still held.
   */
  lemma HandedFromHistory(ops: seq<Op>, n: nat)
    requires n < |ops| && ops[n].Insert? && InOrderItself(ops[n])
    ensures var h, k, handed := ops[n].header, KeyOf(ops[n].header), HandedAt(map[], ops, n);
            && (handed == Aborted(R.SlotMiss) <==> TotalAt(ops, n) <= h.fragId)
            && (handed == AssembleFailed(R.DuplicatedFragment(h.fragId)) <==> StillHeld(ops, k, h.fragId, n))
            && (handed == NotYet || handed.Received? <==>
                  h.fragId < TotalAt(ops, n) && !StillHeld(ops, k, h.fragId, n))
            && (handed.Received? <==>
                  && h.fragId < TotalAt(ops, n) && !StillHeld(ops, k, h.fragId, n)
                  && forall i: u8 :: i < TotalAt(ops, n) && i != h.fragId ==> StillHeld(ops, k, i, n))
  {
    HandedFromReply(ops, n);
    I.DuplicateIff(ops, n);
    I.EffectAt(ops, n);
    forall i: u8 | i < TotalAt(ops, n)
      ensures I.MetAt(ops, n).slots[i].Some? <==> StillHeld(ops, KeyOf(ops[n].header), i, n)
    {
      SlotsHeld(ops, n, i);
    }
    if ReplyAt(map[], ops, n).outcome.Accepted() {
      R.AcceptedEffect(I.MetAt(ops, n), ops[n].header, ops[n].data);
    }
  }
}
