/**
 Register and unregister as the lock steps they really take: a register checks
 the key's floor and inserts under one hold of the presence lock, an unregister
 raises the floor first and takes the presence lock only to remove.
 */
module Presence {
  import opened Options
  import opened Int64
  import opened MapSum
  import opened ReplaySpec
  import opened ReplaySafety
  import opened ReplayRefinement
  import opened ReplayService

  type Id = nat

  /** A presence entry; `signedAt` is the timestamp of the register that wrote it. */
  datatype Entry = Entry(pubkey: Key, signedAt: i64)

  datatype Pending = Pending(key: Key, ts: i64)

  datatype Server = Server(
    store: map<Id, Entry>,
    guard: Guard,
    log: seq<Event>,
    /** The register holding the presence lock, its floor check behind it. */
    holder: Option<Pending>,
    /** Unregisters that raised the floor and have yet to remove the entry. */
    raised: set<Pending>,
    /** Unregisters whose removal has run. */
    done: set<Pending>,
    wall: i64)

  datatype Step =
    | RegisterCheck(key: Key, ts: i64, now: Now)
    /** `admit`: capacity and the new-key budget allow a new id. */
    | RegisterFinish(admit: bool)
    | UnregisterRaise(key: Key, ts: i64, now: Now)
    | UnregisterRemove(key: Key, ts: i64)
    /** Any other request against the replay guard. */
    | Guarded(op: Op)
    /** The sweep, or a register making room: expired entries go. */
    | Expire(ids: set<Id>)

  const START := Server(map[], EMPTY, [], None, {}, {}, 0)

  function ClockOf(step: Step): Option<Now> {
    match step
    case RegisterCheck(_, _, now) => Some(now)
    case UnregisterRaise(_, _, now) => Some(now)
    case Guarded(op) => Some(op.now)
    case _ => None
  }

  predicate Enabled(s: Server, step: Step) {
    && (ClockOf(step).Some? ==> s.wall <= ClockOf(step).value.wall)
    && match step
       case RegisterCheck(_, _, _) => s.holder.None?
       case RegisterFinish(_) => s.holder.Some?
       case UnregisterRemove(key, ts) => s.holder.None? && Pending(key, ts) in s.raised
       case _ => true
  }

  ghost function GuardStep(s: Server, limits: Limits, op: Op): (Server, Admission)
    requires limits.maxPerKey >= 1
  {
    var (guard, answer) := Apply(s.guard, limits, op);
    (s.(guard := guard, log := Logged(s.log, op, answer), wall := op.now.wall), answer)
  }

  function Inserted(s: Server, idOf: Key -> Id, p: Pending, admit: bool): map<Id, Entry> {
    var id := idOf(p.key);
    if (if id in s.store then s.store[id].pubkey == p.key else admit) then s.store[id := Entry(p.key, p.ts)]
    else s.store
  }

  function Removed(s: Server, idOf: Key -> Id, key: Key): map<Id, Entry> {
    if idOf(key) in s.store && s.store[idOf(key)].pubkey == key then s.store - {idOf(key)} else s.store
  }

  ghost function Next(s: Server, limits: Limits, idOf: Key -> Id, step: Step): Server
    requires limits.maxPerKey >= 1
    requires Enabled(s, step)
  {
    match step
    case RegisterCheck(key, ts, now) =>
      var (s', answer) := GuardStep(s, limits, CheckFloor(key, ts, now));
      if answer == Accepted then s'.(holder := Some(Pending(key, ts))) else s'
    case RegisterFinish(admit) => s.(store := Inserted(s, idOf, s.holder.value, admit), holder := None)
    case UnregisterRaise(key, ts, now) =>
      var (s', answer) := GuardStep(s, limits, RaiseFloor(key, ts, now));
      if answer == Accepted then s'.(raised := s'.raised + {Pending(key, ts)}) else s'
    case UnregisterRemove(key, ts) =>
      s.(store := Removed(s, idOf, key), raised := s.raised - {Pending(key, ts)}, done := s.done + {Pending(key, ts)})
    case Guarded(op) => GuardStep(s, limits, op).0
    case Expire(ids) => s.(store := s.store - ids)
  }

  ghost predicate IsRun(limits: Limits, idOf: Key -> Id, steps: seq<Step>, states: seq<Server>)
    requires limits.maxPerKey >= 1
  {
    && |states| == |steps| + 1
    && states[0] == START
    && forall i :: 0 <= i < |steps| ==>
         Enabled(states[i], steps[i]) && states[i + 1] == Next(states[i], limits, idOf, steps[i])
  }

  // ---------------------------------------------------------------- invariant

  /** Signed after `u`; at the last representable second, where the floor saturates, not before it. */
  predicate Past(ts: i64, u: i64) { ts > u || ts == u == I64_MAX }

  /** The id is not held by a register of `u`'s key signed at or before `u`. */
  ghost predicate Gone(s: Server, idOf: Key -> Id, u: Pending) {
    && (idOf(u.key) in s.store && s.store[idOf(u.key)].pubkey == u.key ==> Past(s.store[idOf(u.key)].signedAt, u.ts))
    && (s.holder.Some? && s.holder.value.key == u.key ==> Past(s.holder.value.ts, u.ts))
  }

  ghost predicate ServerInv(s: Server, idOf: Key -> Id) {
    && s.wall >= 0
    && Inv(s.guard, s.log)
    && DroppedBehind(s.guard, s.wall)
    && (forall u :: u in s.raised + s.done ==> FloorRaised(u.key, u.ts) in s.log)
    && (forall u :: u in s.done ==> Gone(s, idOf, u))
  }

  lemma GuardStepInv(s: Server, limits: Limits, idOf: Key -> Id, op: Op)
    requires limits.maxPerKey >= 1
    requires ServerInv(s, idOf) && s.wall <= op.now.wall
    ensures ServerInv(GuardStep(s, limits, op).0, idOf)
  {
    hide Apply, Inv;
    ApplyInv(s.guard, limits, s.log, op);
    ApplyDroppedBehind(s.guard, limits, op, s.wall);
  }

  /** A raised floor stops every register at or below it, even once the key's
      state is evicted: by then the freshness window has passed it. */
  lemma CheckFloorRefuses(g: Guard, log: seq<Event>, key: Key, u: i64, ts: i64, now: Now)
    requires Inv(g, log) && DroppedBehind(g, now.wall) && now.wall >= 0
    requires FloorRaised(key, u) in log
    requires CheckFloorAnswer(g, key, ts, now) == Accepted
    ensures Past(ts, u)
  {
    assert Covers(g, FloorRaised(key, u));
  }

  lemma NextInv(s: Server, limits: Limits, idOf: Key -> Id, step: Step)
    requires limits.maxPerKey >= 1
    requires ServerInv(s, idOf) && Enabled(s, step)
    ensures ServerInv(Next(s, limits, idOf, step), idOf)
  {
    hide Apply, Inv, LogAnswer;
    match step {
      case RegisterCheck(key, ts, now) =>
        RegisterCheckInv(s, limits, idOf, key, ts, now);
      case UnregisterRaise(key, ts, now) =>
        GuardStepInv(s, limits, idOf, RaiseFloor(key, ts, now));
      case Guarded(op) => GuardStepInv(s, limits, idOf, op);
      case _ =>
    }
  }

  lemma RegisterCheckInv(s: Server, limits: Limits, idOf: Key -> Id, key: Key, ts: i64, now: Now)
    requires limits.maxPerKey >= 1
    requires ServerInv(s, idOf) && Enabled(s, RegisterCheck(key, ts, now))
    ensures ServerInv(Next(s, limits, idOf, RegisterCheck(key, ts, now)), idOf)
  {
    hide Inv;
    var s' := Next(s, limits, idOf, RegisterCheck(key, ts, now));
    GuardStepInv(s, limits, idOf, CheckFloor(key, ts, now));
    forall u | u in s.done
      ensures Gone(s', idOf, u)
    {
      if CheckFloorAnswer(s.guard, key, ts, now) == Accepted && u.key == key {
        CheckFloorRefuses(s.guard, s.log, key, u.ts, ts, now);
      }
    }
  }

  lemma {:induction false} RunHasInv(limits: Limits, idOf: Key -> Id, steps: seq<Step>, states: seq<Server>, i: nat)
    requires limits.maxPerKey >= 1
    requires IsRun(limits, idOf, steps, states) && i < |states|
    ensures ServerInv(states[i], idOf)
  {
    hide Next;
    if i > 0 {
      RunHasInv(limits, idOf, steps, states, i - 1);
      NextInv(states[i - 1], limits, idOf, steps[i - 1]);
    }
  }

  lemma {:induction false} DoneStays(limits: Limits, idOf: Key -> Id, steps: seq<Step>, states: seq<Server>, i: nat,
                                     j: nat)
    requires limits.maxPerKey >= 1
    requires IsRun(limits, idOf, steps, states) && i <= j < |states|
    ensures states[i].done <= states[j].done
    decreases j
  {
    if i < j {
      DoneStays(limits, idOf, steps, states, i, j - 1);
      DoneGrows(states[j - 1], limits, idOf, steps[j - 1]);
    }
  }

  lemma DoneGrows(s: Server, limits: Limits, idOf: Key -> Id, step: Step)
    requires limits.maxPerKey >= 1 && Enabled(s, step)
    ensures s.done <= Next(s, limits, idOf, step).done
  {
  }

  /** In every interleaving: once an unregister signed at `ts` has run its removal,
      no register of that key signed at or before `ts` ever leaves its id present. */
  lemma NeverResurrected(limits: Limits, idOf: Key -> Id, steps: seq<Step>, states: seq<Server>, i: nat, j: nat)
    requires limits.maxPerKey >= 1
    requires IsRun(limits, idOf, steps, states)
    requires i < j < |states| && steps[i].UnregisterRemove?
    ensures var id := idOf(steps[i].key);
            id in states[j].store && states[j].store[id].pubkey == steps[i].key ==>
              Past(states[j].store[id].signedAt, steps[i].ts)
  {
    var u := Pending(steps[i].key, steps[i].ts);
    assert u in states[i + 1].done;
    DoneStays(limits, idOf, steps, states, i + 1, j);
    RunHasInv(limits, idOf, steps, states, j);
    assert Gone(states[j], idOf, u);
  }

  /** The floor a first unregister at the last representable second leaves does not stop a register
      signed at that second. */
  lemma LastSecondFloor(limits: Limits, key: Key)
    requires limits.maxKeys >= 1 && limits.maxMarks >= 1 && limits.maxPerKey >= 1
    ensures var now := Now(I64_MAX, I64_MAX);
            var (g, answer) := Apply(EMPTY, limits, RaiseFloor(key, I64_MAX, now));
            answer == Accepted && CheckFloorAnswer(g, key, I64_MAX, now) == Accepted
  {
    var p := Pruned(EMPTY, Now(I64_MAX, I64_MAX));
    assert p.keys == map[] && MarkCounts(p.keys) == map[];
    Empties<Key, nat>();
  }

  /** The run that needs the exception: an unregister at that second has removed the id, and a
      register signed at the same second puts it back. */
  lemma LastSecondResurrects(limits: Limits, idOf: Key -> Id, key: Key)
    returns (steps: seq<Step>, states: seq<Server>)
    requires limits.maxKeys >= 1 && limits.maxMarks >= 1 && limits.maxPerKey >= 1
    ensures IsRun(limits, idOf, steps, states) && |steps| == 4 && steps[1] == UnregisterRemove(key, I64_MAX)
    ensures idOf(key) in states[4].store && states[4].store[idOf(key)] == Entry(key, I64_MAX)
  {
    hide Apply;
    LastSecondFloor(limits, key);
    var now := Now(I64_MAX, I64_MAX);
    steps := [UnregisterRaise(key, I64_MAX, now), UnregisterRemove(key, I64_MAX),
              RegisterCheck(key, I64_MAX, now), RegisterFinish(true)];
    var s1 := Next(START, limits, idOf, steps[0]);
    var s2 := Next(s1, limits, idOf, steps[1]);
    CheckApplies(s2.guard, limits, key, I64_MAX, now);
    var s3 := Next(s2, limits, idOf, steps[2]);
    var s4 := Next(s3, limits, idOf, steps[3]);
    states := [START, s1, s2, s3, s4];
  }

  lemma CheckApplies(g: Guard, limits: Limits, key: Key, ts: i64, now: Now)
    requires limits.maxPerKey >= 1
    ensures Apply(g, limits, CheckFloor(key, ts, now)) == (g, CheckFloorAnswer(g, key, ts, now))
  {
  }

  // ---------------------------------------------------------------- a register that lands

  lemma GuardStepEarned(s: Server, limits: Limits, idOf: Key -> Id, op: Op)
    requires limits.maxPerKey >= 1 && ServerInv(s, idOf) && AllEarned(s.guard, s.log)
    ensures var s' := GuardStep(s, limits, op).0; AllEarned(s'.guard, s'.log)
  {
    hide Apply, Inv, AllEarned;
    ApplyEarned(s.guard, limits, s.log, op);
  }

  lemma {:induction false} RunGuardEarned(limits: Limits, idOf: Key -> Id, steps: seq<Step>, states: seq<Server>,
                                          i: nat)
    requires limits.maxPerKey >= 1 && IsRun(limits, idOf, steps, states) && i < |states|
    ensures AllEarned(states[i].guard, states[i].log)
  {
    if i > 0 {
      hide ServerInv, AllEarned, Apply;
      RunGuardEarned(limits, idOf, steps, states, i - 1);
      RunHasInv(limits, idOf, steps, states, i - 1);
      match steps[i - 1] {
        case RegisterCheck(key, ts, now) => GuardStepEarned(states[i - 1], limits, idOf, CheckFloor(key, ts, now));
        case UnregisterRaise(key, ts, now) => GuardStepEarned(states[i - 1], limits, idOf, RaiseFloor(key, ts, now));
        case Guarded(op) => GuardStepEarned(states[i - 1], limits, idOf, op);
        case _ =>
      }
    }
  }

  /** A floor is never past the request that caused it by more than its own second. */
  lemma NewerPassesFloor(g: Guard, log: seq<Event>, key: Key, ts: i64, now: Now)
    requires Inv(g, log) && AllEarned(g, log) && FreshAt(ts, now.wall)
    requires forall e :: e in log && e.key == key ==> e.ts < ts
    ensures CheckFloorAnswer(g, key, ts, now) == Accepted
  {
    if key in g.keys {
      assert KeyInv(g.keys[key], log, key);
      var e :| e in log && e.key == key && g.keys[key].horizon <= e.ts;
    }
  }

  /** In every interleaving a fresh register newer than everything accepted from its key so far is
      stored when it finishes, if its id is free and there is room, or is already this key's. */
  lemma NewestRegisterLands(limits: Limits, idOf: Key -> Id, steps: seq<Step>, states: seq<Server>, i: nat, j: nat)
    requires limits.maxPerKey >= 1 && IsRun(limits, idOf, steps, states)
    requires i < j < |steps| && steps[i].RegisterCheck? && steps[j].RegisterFinish?
    requires forall k :: i < k < j ==> !steps[k].RegisterFinish?
    requires FreshAt(steps[i].ts, steps[i].now.wall)
    requires forall e :: e in states[i].log && e.key == steps[i].key ==> e.ts < steps[i].ts
    requires var id := idOf(steps[i].key);
             if id in states[j].store then states[j].store[id].pubkey == steps[i].key else steps[j].admit
    ensures var id := idOf(steps[i].key);
            && id in states[j + 1].store && states[j + 1].store[id] == Entry(steps[i].key, steps[i].ts)
            && states[j + 1].store - {id} == states[j].store - {id}
  {
    RunHasInv(limits, idOf, steps, states, i);
    RunGuardEarned(limits, idOf, steps, states, i);
    NewerPassesFloor(states[i].guard, states[i].log, steps[i].key, steps[i].ts, steps[i].now);
    HolderStays(limits, idOf, steps, states, i + 1, j);
  }

  /** The presence lock stays with its register until that finishes. */
  lemma {:induction false} HolderStays(limits: Limits, idOf: Key -> Id, steps: seq<Step>, states: seq<Server>, i: nat,
                                       j: nat)
    requires limits.maxPerKey >= 1 && IsRun(limits, idOf, steps, states) && i <= j < |states|
    requires states[i].holder.Some? && forall k :: i <= k < j ==> !steps[k].RegisterFinish?
    ensures states[j].holder == states[i].holder
    decreases j
  {
    if i < j { HolderStays(limits, idOf, steps, states, i, j - 1); }
  }

  /** An unregister past its floor removes the key's own entry, however recent, and no other. */
  lemma RemovedIsGone(limits: Limits, idOf: Key -> Id, steps: seq<Step>, states: seq<Server>, i: nat)
    requires limits.maxPerKey >= 1 && IsRun(limits, idOf, steps, states)
    requires i < |steps| && steps[i].UnregisterRemove?
    ensures var id, key, before, after := idOf(steps[i].key), steps[i].key, states[i].store, states[i + 1].store;
            && (id in after ==> after[id].pubkey != key)
            && (id in before && before[id].pubkey != key ==> after == before)
            && after - {id} == before - {id}
  {
  }

  lemma FreshEnough(g: Guard, ts: i64, now: Now)
    requires DroppedBehind(g, now.wall) && now.wall >= 0 && FreshAt(ts, now.wall)
    ensures Fresh(g, ts, now)
  {
  }

  /** In every interleaving a fresh unregister newer than everything accepted from its key is accepted,
      and goes on to remove the entry, unless the guard is full. */
  lemma NewestUnregisterIsTaken(limits: Limits, idOf: Key -> Id, steps: seq<Step>, states: seq<Server>, i: nat)
    requires limits.maxPerKey >= 1 && IsRun(limits, idOf, steps, states)
    requires i < |steps| && steps[i].UnregisterRaise? && FreshAt(steps[i].ts, steps[i].now.wall)
    requires forall e :: e in states[i].log && e.key == steps[i].key ==> e.ts < steps[i].ts
    requires || steps[i].key in LiveKeys(states[i].guard, steps[i].now)
             || RoomForKey(states[i].guard, limits, steps[i].now)
    ensures Pending(steps[i].key, steps[i].ts) in states[i + 1].raised
  {
    var s, st := states[i], steps[i];
    RunHasInv(limits, idOf, steps, states, i);
    RunGuardEarned(limits, idOf, steps, states, i);
    StillBehind(s.guard, s.wall, st.now.wall);
    FreshEnough(s.guard, st.ts, st.now);
    NewerPassesFloor(s.guard, s.log, st.key, st.ts, st.now);
    RaiseAccepted(s.guard, limits, st.key, st.ts, st.now);
  }

  lemma StillBehind(g: Guard, was: i64, wall: i64)
    requires DroppedBehind(g, was) && was <= wall
    ensures DroppedBehind(g, wall)
  {
  }

  lemma RaiseAccepted(g: Guard, limits: Limits, key: Key, ts: i64, now: Now)
    requires limits.maxPerKey >= 1 && Fresh(g, ts, now) && CheckFloorAnswer(g, key, ts, now) == Accepted
    requires key in LiveKeys(g, now) || RoomForKey(g, limits, now)
    ensures Apply(g, limits, RaiseFloor(key, ts, now)).1 == Accepted
  {
    hide DroppedWith, Sum;
    FullIff(g, limits, RaiseFloor(key, ts, now));
    assert Pruned(g, now).keys == LiveKeys(g, now);
  }
}
