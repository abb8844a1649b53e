// The server's table of UDP sessions as a concurrent step machine. Packet handlers,
// dissociations, timeouts and session listeners interleave freely; a step stands for what
// happens between two points where a task may be suspended. The table holds weak
// references: a session is kept alive by its listener task.
module ServerSessions {
  import opened Wrappers
  import opened Protocol

  datatype RelayMode = Native | Quic

  // The listener loops; has left its loop; has removed its key and released the session.
  datatype Phase = Listening | Exiting | Gone

  /** A session: whether its close sender is still there, and how many signals went out. */
  datatype Session = Session(assocId: u16, closeSender: bool, signals: nat, phase: Phase)
  {
    // Takes the close sender, if it is still there, and sends the signal.
    function Close(): Session {
      if closeSender then Session(assocId, false, signals + 1, phase) else this
    }
  }

  /** A packet handler: has stored the relay mode; found no session; holds a session reference. */
  datatype Handler = Accepting(assocId: u16) | Missing(assocId: u16) | Holding(assocId: u16, id: nat)

  /** Who holds the write lock of the table across a suspension. */
  datatype Lock = Free | Creating(id: nat, task: nat) | Dissociating(id: nat)

  datatype State = State(
    table: map<u16, nat>,
    sessions: seq<Session>,
    handlers: map<nat, Handler>,
    lock: Lock,
    mode: Option<RelayMode>,
    // Sessions whose entry was removed by the listener of another session.
    evicted: set<nat>)

  const Init := State(map[], [], map[], Free, None, {})

  datatype Step =
    | StoreMode(task: nat, assocId: u16, mode: RelayMode)
    | EndUnassembled(task: nat)
    | Lookup(task: nat)
    | Create(task: nat)
    | CreateFails(task: nat)
    | Publish
    | FinishPacket(task: nat)
    | Dissociate(assocId: u16)
    | CloseDissociated
    | Timeout(id: nat)
    | LeaveLoop(id: nat)
    | ExitRemoval(id: nat)

  predicate Enabled(s: State, step: Step) {
    match step
    case StoreMode(task, _, _) => task !in s.handlers
    // The packet is not complete yet, or its fragment is refused.
    case EndUnassembled(task) => task in s.handlers && s.handlers[task].Accepting?
    case Lookup(task) => task in s.handlers && s.handlers[task].Accepting? && s.lock.Free?
    case Create(task) => task in s.handlers && s.handlers[task].Missing? && s.lock.Free?
    case CreateFails(task) =>
      && task in s.handlers && s.handlers[task].Missing? && s.lock.Free?
      && s.handlers[task].assocId !in s.table
    case Publish => s.lock.Creating? && s.lock.task in s.handlers
    case FinishPacket(task) => task in s.handlers && s.handlers[task].Holding?
    case Dissociate(_) => s.lock.Free?
    case CloseDissociated => s.lock.Dissociating? && s.lock.id < |s.sessions|
    case Timeout(id) => id < |s.sessions| && s.sessions[id].phase.Listening?
    // The listener leaves its loop when the close signal arrives.
    case LeaveLoop(id) => id < |s.sessions| && s.sessions[id].phase.Listening? && s.sessions[id].signals > 0
    case ExitRemoval(id) => id < |s.sessions| && s.sessions[id].phase.Exiting? && s.lock.Free?
  }

  function Next(s: State, step: Step): State
    requires Enabled(s, step)
  {
    match step
    case StoreMode(task, assocId, mode) =>
      s.(mode := Some(mode), handlers := s.handlers[task := Accepting(assocId)])
    case EndUnassembled(task) => s.(handlers := s.handlers - {task})
    case Lookup(task) =>
      var a := s.handlers[task].assocId;
      s.(handlers := s.handlers[task := if a in s.table then Holding(a, s.table[a]) else Missing(a)])
    case Create(task) =>
      var a := s.handlers[task].assocId;
      if a in s.table then s.(handlers := s.handlers[task := Holding(a, s.table[a])])
      // The listener is spawned while the lock is held, before the entry is there.
      else s.(sessions := s.sessions + [Session(a, true, 0, Listening)], lock := Creating(|s.sessions|, task))
    case CreateFails(task) => s.(handlers := s.handlers - {task})
    case Publish =>
      var a, id := s.handlers[s.lock.task].assocId, s.lock.id;
      s.(table := s.table[a := id], handlers := s.handlers[s.lock.task := Holding(a, id)], lock := Free)
    case FinishPacket(task) => s.(handlers := s.handlers - {task})
    case Dissociate(a) =>
      if a in s.table then s.(table := s.table - {a}, lock := Dissociating(s.table[a])) else s
    case CloseDissociated =>
      // The weak reference can be upgraded for as long as the listener owns the session.
      var id := s.lock.id;
      if s.sessions[id].phase.Gone? then s.(lock := Free)
      else s.(sessions := s.sessions[id := s.sessions[id].Close()], lock := Free)
    case Timeout(id) => s.(sessions := s.sessions[id := s.sessions[id].Close()])
    case LeaveLoop(id) => s.(sessions := s.sessions[id := s.sessions[id].(phase := Exiting)])
    case ExitRemoval(id) =>
      // Removes by key, whatever session the key now refers to.
      var a := s.sessions[id].assocId;
      s.(table := s.table - {a},
         sessions := s.sessions[id := s.sessions[id].(phase := Gone)],
         evicted := s.evicted + (if a in s.table && s.table[a] != id then {s.table[a]} else {}))
  }

  /** The state after these steps, if each of them was possible. */
  function Exec(steps: seq<Step>): Option<State> {
    if steps == [] then Some(Init)
    else
      match Exec(steps[..|steps| - 1])
      case None => None
      case Some(s) => if Enabled(s, steps[|steps| - 1]) then Some(Next(s, steps[|steps| - 1])) else None
  }

  // Invariants.

  predicate InTable(s: State, id: nat) {
    id < |s.sessions| && s.sessions[id].assocId in s.table && s.table[s.sessions[id].assocId] == id
  }

  predicate InHand(s: State, id: nat) {
    !s.lock.Free? && s.lock.id == id
  }

  /** Every entry is keyed by its session's own association and refers to a session that has not exited. */
  ghost predicate TableIsLive(s: State) {
    forall a :: a in s.table ==>
      && s.table[a] < |s.sessions|
      && s.sessions[s.table[a]].assocId == a
      && !s.sessions[s.table[a]].phase.Gone?
  }

  /** The close signal goes out at most once, and no listener leaves its loop without it. */
  ghost predicate ClosesOnce(s: State) {
    forall id :: 0 <= id < |s.sessions| ==>
      && s.sessions[id].signals == (if s.sessions[id].closeSender then 0 else 1)
      && (!s.sessions[id].phase.Listening? ==> s.sessions[id].signals == 1)
  }

  /** Whoever handles a packet has stored the relay mode, and so has whoever created a session. */
  ghost predicate ModeIsSet(s: State) {
    s.sessions != [] || s.handlers != map[] ==> s.mode.Some?
  }

  /** The session in the hands of the lock holder is not in the table and has not exited. */
  ghost predicate LockIsConsistent(s: State) {
    !s.lock.Free? ==>
      && s.lock.id < |s.sessions|
      && !s.sessions[s.lock.id].phase.Gone?
      && s.sessions[s.lock.id].assocId !in s.table
      && s.lock.id !in s.evicted
  }

  predicate Open(s: State, id: nat)
    requires id < |s.sessions|
  {
    s.sessions[id].phase.Listening? && s.sessions[id].signals == 0
  }

  /** An open session is in the table, in the hands of the lock holder, or evicted: one of the three. */
  ghost predicate OpenIsAccounted(s: State) {
    && (forall id :: 0 <= id < |s.sessions| && Open(s, id) ==> InTable(s, id) || InHand(s, id) || id in s.evicted)
    && (forall id :: id in s.evicted ==> id < |s.sessions| && !InTable(s, id) && !InHand(s, id))
  }

  /** A handler holds a session of its own association, and one that creates a session waits for the entry, with no reference yet. */
  ghost predicate HandlersHoldOwn(s: State) {
    && (forall task :: task in s.handlers && s.handlers[task].Holding? ==>
          && s.handlers[task].id < |s.sessions|
          && s.sessions[s.handlers[task].id].assocId == s.handlers[task].assocId)
    && (s.lock.Creating? ==>
          && s.lock.id < |s.sessions|
          && s.lock.task in s.handlers
          && s.handlers[s.lock.task] == Missing(s.sessions[s.lock.id].assocId))
  }

  ghost predicate Inv(s: State) {
    && TableIsLive(s) && ClosesOnce(s) && ModeIsSet(s) && LockIsConsistent(s) && OpenIsAccounted(s)
    && HandlersHoldOwn(s)
  }

  lemma HandlerStepKeepsInv(s: State, step: Step)
    requires Inv(s) && Enabled(s, step)
    requires step.StoreMode? || step.EndUnassembled? || step.Lookup? || step.CreateFails? || step.FinishPacket?
    ensures Inv(Next(s, step))
  {
    var s' := Next(s, step);
    forall id: nat
      ensures InTable(s', id) == InTable(s, id) && InHand(s', id) == InHand(s, id)
    {
    }
  }

  lemma CreateKeepsInv(s: State, task: nat)
    requires Inv(s) && Enabled(s, Create(task))
    ensures Inv(Next(s, Create(task)))
  {
    var s' := Next(s, Create(task));
    forall id: nat | id < |s.sessions|
      ensures InTable(s', id) == InTable(s, id)
      ensures s'.sessions[id] == s.sessions[id]
    {
    }
  }

  lemma PublishKeepsInv(s: State)
    requires Inv(s) && Enabled(s, Publish)
    ensures Inv(Next(s, Publish))
  {
    var s' := Next(s, Publish);
    forall id: nat
      ensures InTable(s', id) == (InTable(s, id) || id == s.lock.id)
    {
    }
  }

  lemma DissociateKeepsInv(s: State, a: u16)
    requires Inv(s) && Enabled(s, Step.Dissociate(a))
    ensures Inv(Next(s, Step.Dissociate(a)))
  {
    var s' := Next(s, Step.Dissociate(a));
    forall id: nat
      ensures InTable(s', id) == (InTable(s, id) && s.sessions[id].assocId != a)
    {
    }
  }

  lemma SessionStepKeepsInv(s: State, step: Step)
    requires Inv(s) && Enabled(s, step)
    requires step.CloseDissociated? || step.Timeout? || step.LeaveLoop?
    ensures Inv(Next(s, step))
  {
    var s' := Next(s, step);
    forall id: nat
      ensures InTable(s', id) == InTable(s, id)
    {
    }
  }

  lemma ExitRemovalKeepsInv(s: State, id: nat)
    requires Inv(s) && Enabled(s, ExitRemoval(id))
    ensures Inv(Next(s, ExitRemoval(id)))
  {
    var s' := Next(s, ExitRemoval(id));
    var a := s.sessions[id].assocId;
    forall other: nat
      ensures InTable(s', other) == (InTable(s, other) && s.sessions[other].assocId != a)
    {
    }
  }

  lemma StepKeepsInv(s: State, step: Step)
    requires Inv(s) && Enabled(s, step)
    ensures Inv(Next(s, step))
  {
    match step {
      case Create(task) => CreateKeepsInv(s, task);
      case Publish => PublishKeepsInv(s);
      case Dissociate(a) => DissociateKeepsInv(s, a);
      case CloseDissociated => SessionStepKeepsInv(s, step);
      case Timeout(_) => SessionStepKeepsInv(s, step);
      case LeaveLoop(_) => SessionStepKeepsInv(s, step);
      case ExitRemoval(id) => ExitRemovalKeepsInv(s, id);
      case _ => HandlerStepKeepsInv(s, step);
    }
  }

  /** The invariants hold in every interleaving. */
  lemma {:induction false} ReachableInv(steps: seq<Step>)
    requires Exec(steps).Some?
    ensures Inv(Exec(steps).value)
  {
    if steps != [] {
      ReachableInv(steps[..|steps| - 1]);
      StepKeepsInv(Exec(steps[..|steps| - 1]).value, steps[|steps| - 1]);
    }
  }

  /** In every interleaving the session a dissociation removed from the table can still be reached and closed. */
  lemma DissociationReachesSession(steps: seq<Step>)
    requires Exec(steps).Some? && Exec(steps).value.lock.Dissociating?
    ensures var s := Exec(steps).value;
            && s.lock.id < |s.sessions|
            && !s.sessions[s.lock.id].phase.Gone?
            && Enabled(s, CloseDissociated)
            && Next(s, CloseDissociated).sessions[s.lock.id].signals == 1
  {
    ReachableInv(steps);
  }

  /** A timeout leaves the session with its one signal sent, so that its listener can leave; and once it has left and removed its key, no entry of its association remains. */
  lemma TimeoutEndsSession(steps: seq<Step>, id: nat)
    requires Exec(steps).Some? && Enabled(Exec(steps).value, Timeout(id))
    ensures var s1 := Next(Exec(steps).value, Timeout(id));
            && s1.sessions[id].signals == 1
            && Enabled(s1, LeaveLoop(id))
            && var s2 := Next(s1, LeaveLoop(id));
               s2.lock.Free? ==>
                 && Enabled(s2, ExitRemoval(id))
                 && s2.sessions[id].assocId !in Next(s2, ExitRemoval(id)).table
                 && Next(s2, ExitRemoval(id)).sessions[id].phase.Gone?
  {
    ReachableInv(steps);
  }

  /** Whenever a packet comes back on a session, the relay mode is there to be unwrapped. */
  lemma ModeIsThereForSessions(steps: seq<Step>, id: nat)
    requires Exec(steps).Some? && id < |Exec(steps).value.sessions|
    ensures Exec(steps).value.mode.Some?
  {
    ReachableInv(steps);
  }

  // What handlers get.

  /** A session found or created for a handler is the one in the table under the handler's own association, and has not exited. */
  ghost predicate GotOwn(s: State, task: nat) {
    && task in s.handlers && s.handlers[task].Holding?
    && InTable(s, s.handlers[task].id)
    && s.sessions[s.handlers[task].id].assocId == s.handlers[task].assocId
    && !s.sessions[s.handlers[task].id].phase.Gone?
  }

  /** A handler whose packet is not put together ends without looking for a session. */
  lemma UnassembledEnds(s: State, task: nat)
    requires task in s.handlers && s.handlers[task].Accepting?
    ensures Enabled(s, EndUnassembled(task)) && Next(s, EndUnassembled(task)) == s.(handlers := s.handlers - {task})
  {
  }

  /** Looking up gives a handler the session of its own association if there is an entry, and none otherwise. */
  lemma LookupGivesOwn(steps: seq<Step>, task: nat)
    requires Exec(steps).Some? && Enabled(Exec(steps).value, Lookup(task))
    ensures var s := Exec(steps).value;
            var s' := Next(s, Lookup(task));
            if s.handlers[task].assocId in s.table then GotOwn(s', task)
            else s'.handlers[task] == Missing(s.handlers[task].assocId)
  {
    ReachableInv(steps);
  }

  /** A handler that found none takes the entry that has come since, or makes a session of its own association, open and kept from everyone else until it is in the table. */
  lemma CreationGivesOwn(steps: seq<Step>, task: nat)
    requires Exec(steps).Some? && Enabled(Exec(steps).value, Create(task))
    ensures var s := Exec(steps).value;
            var s' := Next(s, Create(task));
            if s.handlers[task].assocId in s.table then GotOwn(s', task)
            else
              && |s'.sessions| == |s.sessions| + 1
              && s'.sessions[|s.sessions|].assocId == s.handlers[task].assocId
              && Open(s', |s.sessions|) && !InTable(s', |s.sessions|)
              && Enabled(s, CreateFails(task))
              && Enabled(s', Publish)
              && var s'' := Next(s', Publish);
                 && GotOwn(s'', task) && s''.handlers[task].id == |s.sessions|
                 && s''.lock.Free?
  {
    ReachableInv(steps);
  }

  /** In every interleaving a handler that enters the session into the table gets it, under its own association. */
  lemma PublishGivesOwn(steps: seq<Step>)
    requires Exec(steps).Some? && Exec(steps).value.lock.Creating?
    ensures var s := Exec(steps).value;
            && Enabled(s, Publish)
            && GotOwn(Next(s, Publish), s.lock.task)
            && Next(s, Publish).handlers[s.lock.task].id == s.lock.id
  {
    ReachableInv(steps);
  }

  /** A handler belongs to the association it came with until it ends; each step adds, removes or changes its own handler only. */
  lemma HandlersAfter(s: State, step: Step)
    requires Inv(s) && Enabled(s, step)
    ensures var s' := Next(s, step);
            && s'.handlers.Keys ==
               (match step
                case StoreMode(task, _, _) => s.handlers.Keys + {task}
                case EndUnassembled(task) => s.handlers.Keys - {task}
                case CreateFails(task) => s.handlers.Keys - {task}
                case FinishPacket(task) => s.handlers.Keys - {task}
                case _ => s.handlers.Keys)
            && (step.StoreMode? ==> step.task !in s.handlers && s'.handlers[step.task] == Accepting(step.assocId))
            && (step.EndUnassembled? ==> s.handlers[step.task].Accepting?)
            && (step.FinishPacket? ==> s.handlers[step.task].Holding?)
            && (step.CreateFails? ==> s.handlers[step.task].Missing? && s.handlers[step.task].assocId !in s.table)
            && (forall task :: task in s.handlers && task in s'.handlers ==>
                  s'.handlers[task].assocId == s.handlers[task].assocId)
            && (forall task :: task in s.handlers && s.handlers[task].Holding? && task in s'.handlers ==>
                  s'.handlers[task] == s.handlers[task])
  {
  }

  /** While the table is locked, nobody looks into it or changes it but the holder of the lock, who makes one change and gives it back. */
  lemma LockExcludes(s: State, step: Step)
    requires Inv(s) && Enabled(s, step) && !s.lock.Free?
    ensures !step.Lookup? && !step.Create? && !step.CreateFails? && !step.Dissociate? && !step.ExitRemoval?
    ensures step.Publish? || step.CloseDissociated? <==> Next(s, step).lock.Free?
    ensures !step.Publish? ==> Next(s, step).table == s.table
    ensures !Next(s, step).lock.Free? ==> Next(s, step).lock == s.lock
  {
  }

  /** A session keeps its association, never opens again and never comes back once it has exited. */
  lemma SessionsAfter(s: State, step: Step, id: nat)
    requires Inv(s) && Enabled(s, step) && id < |s.sessions|
    ensures var before, after := s.sessions[id], Next(s, step).sessions[id];
            && after.assocId == before.assocId
            && before.signals <= after.signals
            && (before.phase != after.phase ==>
                  || (step == LeaveLoop(id) && before.phase.Listening? && after.phase.Exiting?)
                  || (step == ExitRemoval(id) && before.phase.Exiting? && after.phase.Gone?))
            && (before.signals != after.signals ==>
                  step == Timeout(id) || (step.CloseDissociated? && s.lock == Dissociating(id)))
  {
  }

  /** What the table loses and gains: an entry comes only by publishing and goes only with a dissociation or an exit of its association. */
  lemma TableAfter(s: State, step: Step)
    requires Inv(s) && Enabled(s, step)
    ensures var t, t' := s.table, Next(s, step).table;
            match step
            case Publish => t'.Keys == t.Keys + {s.handlers[s.lock.task].assocId} && forall a :: a in t ==> t'[a] == t[a]
            case Dissociate(a) => t'.Keys == t.Keys - {a} && forall b :: b in t' ==> t'[b] == t[b]
            case ExitRemoval(id) =>
              t'.Keys == t.Keys - {s.sessions[id].assocId} && forall b :: b in t' ==> t'[b] == t[b]
            case _ => t' == t
  {
  }

  /** The mode that the last packet came in with. */
  function LastMode(steps: seq<Step>): Option<RelayMode> {
    if steps == [] then None
    else if steps[|steps| - 1].StoreMode? then Some(steps[|steps| - 1].mode)
    else LastMode(steps[..|steps| - 1])
  }

  /** Packets go back in the mode in which the last one came. */
  lemma {:induction false} ModeIsLastStored(steps: seq<Step>)
    requires Exec(steps).Some?
    ensures Exec(steps).value.mode == LastMode(steps)
  {
    if steps != [] {
      ModeIsLastStored(steps[..|steps| - 1]);
    }
  }

  // Nothing waits forever for want of a possible step.

  /** From any reachable state the lock can be released. */
  lemma LockIsReleased(steps: seq<Step>) returns (more: seq<Step>)
    requires Exec(steps).Some?
    ensures Exec(steps + more).Some? && Exec(steps + more).value.lock.Free?
    ensures Exec(steps + more).value.handlers.Keys == Exec(steps).value.handlers.Keys
    ensures |Exec(steps + more).value.sessions| == |Exec(steps).value.sessions|
    ensures forall id: nat :: id < |Exec(steps).value.sessions| ==>
              && Exec(steps + more).value.sessions[id].phase == Exec(steps).value.sessions[id].phase
              && Exec(steps + more).value.sessions[id].signals >= Exec(steps).value.sessions[id].signals
  {
    ReachableInv(steps);
    var s := Exec(steps).value;
    if s.lock.Free? {
      more := [];
      assert steps + more == steps;
    } else {
      var step := if s.lock.Creating? then Publish else CloseDissociated;
      more := [step];
      ExecOneMore(steps, step);
    }
  }

  /** From any reachable state any association can be dissociated, whether it has a session or not. */
  lemma DissociationCanCome(steps: seq<Step>, a: u16) returns (more: seq<Step>)
    requires Exec(steps).Some?
    ensures Exec(steps + more).Some? && Step.Dissociate(a) in more
    ensures a !in Exec(steps + more).value.table
  {
    more := LockIsReleased(steps);
    more := OneMore(steps, more, Step.Dissociate(a));
  }

  /** At any time a packet can come in, and a session that listens can time out. */
  lemma PacketsAndTimeoutsCanCome(s: State, task: nat, a: u16, mode: RelayMode, id: nat)
    ensures task !in s.handlers ==>
              && Enabled(s, StoreMode(task, a, mode))
              && Next(s, StoreMode(task, a, mode)).handlers == s.handlers[task := Accepting(a)]
              && Next(s, StoreMode(task, a, mode)).mode == Some(mode)
    ensures id < |s.sessions| && s.sessions[id].phase.Listening? ==>
              && Enabled(s, Timeout(id))
              && !Next(s, Timeout(id)).sessions[id].closeSender
  {
  }

  /** From any reachable state a packet handler can come to its end. */
  lemma HandlerCanFinish(steps: seq<Step>, task: nat) returns (more: seq<Step>)
    requires Exec(steps).Some? && task in Exec(steps).value.handlers
    ensures Exec(steps + more).Some? && task !in Exec(steps + more).value.handlers
  {
    more := LockIsReleased(steps);
    if Exec(steps + more).value.handlers[task].Accepting? {
      more := OneMore(steps, more, Lookup(task));
    }
    if Exec(steps + more).value.handlers[task].Missing? {
      more := OneMore(steps, more, Create(task));
      if Exec(steps + more).value.lock.Creating? {
        more := OneMore(steps, more, Publish);
      }
    }
    more := OneMore(steps, more, FinishPacket(task));
  }

  lemma OneMore(steps: seq<Step>, more: seq<Step>, step: Step) returns (longer: seq<Step>)
    requires Exec(steps + more).Some? && Enabled(Exec(steps + more).value, step)
    ensures longer == more + [step]
    ensures Exec(steps + longer) == Some(Next(Exec(steps + more).value, step))
  {
    longer := more + [step];
    ExecOneMore(steps + more, step);
    assert steps + longer == steps + more + [step];
  }

  /** From any reachable state a session that was signalled can come to its end. */
  lemma SignalledSessionCanGo(steps: seq<Step>, id: nat) returns (more: seq<Step>)
    requires Exec(steps).Some? && id < |Exec(steps).value.sessions| && Exec(steps).value.sessions[id].signals > 0
    ensures Exec(steps + more).Some?
    ensures id < |Exec(steps + more).value.sessions| && Exec(steps + more).value.sessions[id].phase.Gone?
  {
    more := LockIsReleased(steps);
    if Exec(steps + more).value.sessions[id].phase.Listening? {
      more := OneMore(steps, more, LeaveLoop(id));
    }
    if Exec(steps + more).value.sessions[id].phase.Exiting? {
      more := OneMore(steps, more, ExitRemoval(id));
    }
  }

  // The converse of liveness.

  /** A session that is open and in no one's hands is in the table if and only if it was never evicted. */
  lemma OpenInTableIff(steps: seq<Step>, id: nat)
    requires Exec(steps).Some?
    requires id < |Exec(steps).value.sessions| && Open(Exec(steps).value, id) && !InHand(Exec(steps).value, id)
    ensures var s := Exec(steps).value; InTable(s, id) <==> id !in s.evicted
  {
    ReachableInv(steps);
  }

  /** Of two open sessions of one association that are in no one's hands, one was evicted. */
  lemma SecondOpenSessionIsEvicted(steps: seq<Step>, id1: nat, id2: nat)
    requires Exec(steps).Some?
    requires var s := Exec(steps).value;
             && id1 < id2 < |s.sessions| && s.sessions[id1].assocId == s.sessions[id2].assocId
             && Open(s, id1) && Open(s, id2) && !InHand(s, id1) && !InHand(s, id2)
    ensures var s := Exec(steps).value; id1 in s.evicted || id2 in s.evicted
  {
    ReachableInv(steps);
  }

  /** At step `j` the exit of another session's listener removes the entry of session `id`. */
  predicate EvictsAt(steps: seq<Step>, j: nat, id: nat)
    requires j < |steps|
  {
    && Exec(steps[..j]).Some? && steps[j].ExitRemoval? && steps[j].id != id
    && InTable(Exec(steps[..j]).value, id)
    && steps[j].id < |Exec(steps[..j]).value.sessions|
    && Exec(steps[..j]).value.sessions[steps[j].id].assocId == Exec(steps[..j]).value.sessions[id].assocId
  }

  lemma EvictedByStep(s: State, step: Step, id: nat)
    requires Inv(s) && Enabled(s, step)
    ensures id in Next(s, step).evicted <==>
            || id in s.evicted
            || (&& step.ExitRemoval? && step.id != id && InTable(s, id)
                && s.sessions[step.id].assocId == s.sessions[id].assocId)
  {
  }

  /** A session was evicted exactly when the listener of another session of its association exited while it was in the table. */
  lemma {:induction false} EvictedIff(steps: seq<Step>, id: nat)
    requires Exec(steps).Some?
    ensures id in Exec(steps).value.evicted <==> exists j :: 0 <= j < |steps| && EvictsAt(steps, j, id)
  {
    if steps != [] {
      var last := |steps| - 1;
      var front := steps[..last];
      EvictedIff(front, id);
      ReachableInv(front);
      EvictedByStep(Exec(front).value, steps[last], id);
      forall j | 0 <= j < last
        ensures EvictsAt(front, j, id) == EvictsAt(steps, j, id)
      {
        assert front[..j] == steps[..j];
      }
      assert EvictsAt(steps, last, id) <==>
             && steps[last].ExitRemoval? && steps[last].id != id && InTable(Exec(front).value, id)
             && Exec(front).value.sessions[steps[last].id].assocId == Exec(front).value.sessions[id].assocId;
      if id in Exec(front).value.evicted {
        var j :| 0 <= j < |front| && EvictsAt(front, j, id);
        assert EvictsAt(steps, j, id);
      }
    }
  }

  lemma ExecOneMore(steps: seq<Step>, step: Step)
    requires Exec(steps).Some? && Enabled(Exec(steps).value, step)
    ensures Exec(steps + [step]) == Some(Next(Exec(steps).value, step))
  {
    assert (steps + [step])[..|steps|] == steps;
  }

  // A first packet creates a session for association `a`, which is then dissociated and closed.
  lemma SessionCreatedAndDissociated(a: u16) returns (steps: seq<Step>)
    ensures Exec(steps) == Some(State(map[], [Session(a, false, 1, Exiting)], map[], Free, Some(Native), {}))
  {
    steps := [];
    ExecOneMore(steps, StoreMode(0, a, Native));
    steps := steps + [StoreMode(0, a, Native)];
    ExecOneMore(steps, Lookup(0));
    steps := steps + [Lookup(0)];
    ExecOneMore(steps, Create(0));
    steps := steps + [Create(0)];
    ExecOneMore(steps, Publish);
    steps := steps + [Publish];
    assert Exec(steps).value.table == map[a := 0];
    ExecOneMore(steps, FinishPacket(0));
    steps := steps + [FinishPacket(0)];
    assert Exec(steps).value.handlers == map[];
    ExecOneMore(steps, Step.Dissociate(a));
    steps := steps + [Step.Dissociate(a)];
    assert Exec(steps).value.table == map[];
    ExecOneMore(steps, CloseDissociated);
    steps := steps + [CloseDissociated];
    assert Exec(steps).value.sessions == [Session(a, false, 1, Listening)];
    ExecOneMore(steps, LeaveLoop(0));
    steps := steps + [LeaveLoop(0)];
    assert Exec(steps).value.sessions == [Session(a, false, 1, Exiting)];
  }

  /** The converse of liveness fails: for any association, a session that is open and in no one's hands can be missing from the table. */
  lemma OpenSessionCanBeMissing(a: u16) returns (steps: seq<Step>)
    ensures Exec(steps).Some?
    ensures var s := Exec(steps).value;
            |s.sessions| == 2 && s.sessions[1].assocId == a && Open(s, 1) && s.lock.Free? && !InTable(s, 1)
  {
    steps := SessionCreatedAndDissociated(a);
    ExecOneMore(steps, StoreMode(1, a, Native));
    steps := steps + [StoreMode(1, a, Native)];
    ExecOneMore(steps, Lookup(1));
    steps := steps + [Lookup(1)];
    ExecOneMore(steps, Create(1));
    steps := steps + [Create(1)];
    ExecOneMore(steps, Publish);
    steps := steps + [Publish];
    ExecOneMore(steps, ExitRemoval(0));
    steps := steps + [ExitRemoval(0)];
  }
}
