/**
 The bounded guard against the unbounded log of accepted requests.

 What the guard accepts the log would accept, under any clocks. With a server
 wall clock that does not step back the watermark never refuses a fresh
 request, and while no limit is reached the two give the same answers.
 */
module ReplayRefinement {
  import opened Options
  import opened Int64
  import opened MapSum
  import opened ReplaySpec
  import opened ReplaySafety
  import opened Seqs

  // ---------------------------------------------------------------- accepts no more

  /** Whatever the guard accepts, a server remembering everything would accept too. */
  lemma AcceptsNoMoreThanLog(limits: Limits, ops: seq<Op>, j: nat)
    requires limits.maxPerKey >= 1
    requires j < |ops| && (ops[j].Admit? || ops[j].RaiseFloor?)
    requires AnswerTo(limits, ops, j) == Accepted
    ensures LogAnswer(LogAfter(limits, ops[..j]), ops[j]) == Accepted
  {
    hide AdmitInto, RaiseFloorInto, Inv, LastAdmitted, Pruned;
    var op := ops[j];
    var g, log := After(limits, ops[..j]), LogAfter(limits, ops[..j]);
    RunInv(limits, ops[..j]);
    forall e | e in log && e.key == op.key
      ensures e.FloorRaised? ==> op.ts >= SatAdd(e.ts, 1)
      ensures op.Admit? && e.Admitted? && op.scope == e.scope ==>
                op.ts > e.ts || (op.ts == e.ts && op.digest != e.digest)
    {
      AcceptedIsNew(g, limits, log, op, e);
    }
    if op.Admit? { assert LastAdmitted(log, op.key, op.scope) != Some(Mark(op.scope, op.ts, op.digest)); }
  }

  // ---------------------------------------------------------------- the watermark

  /** A wall clock read in Unix seconds that does not step back. */
  ghost predicate SteadyClock(ops: seq<Op>) {
    && (forall i :: 0 <= i < |ops| ==> ops[i].now.wall >= 0)
    && (forall i, j :: 0 <= i < j < |ops| ==> ops[i].now.wall <= ops[j].now.wall)
  }

  ghost predicate DroppedBehind(g: Guard, wall: i64) {
    g.dropped == I64_MIN || LapsedAt(g.dropped, wall)
  }

  lemma ApplyDroppedBehind(g: Guard, limits: Limits, op: Op, wall: i64)
    requires limits.maxPerKey >= 1
    requires DroppedBehind(g, wall) && wall <= op.now.wall
    ensures DroppedBehind(Apply(g, limits, op).0, op.now.wall)
  {
    var p := Pruned(g, op.now);
    assert DroppedBehind(p, op.now.wall);
    if op.Admit? { LapsedMarksBehind(StateOf(p, op.key), op.now, p.dropped); }
  }

  lemma LapsedMarksBehind(st: KeyState, now: Now, base: i64)
    ensures var d := DroppedMarks(st, now.PruneClock(), base); d == base || LapsedAt(d, now.wall)
  {
  }

  lemma {:induction false} RunDroppedBehind(limits: Limits, ops: seq<Op>, wall: i64)
    requires limits.maxPerKey >= 1
    requires SteadyClock(ops)
    requires forall i :: 0 <= i < |ops| ==> ops[i].now.wall <= wall
    ensures DroppedBehind(After(limits, ops), wall)
  {
    if ops != [] {
      var init, op := ops[..|ops| - 1], ops[|ops| - 1];
      RunDroppedBehind(limits, init, op.now.wall);
      ApplyDroppedBehind(After(limits, init), limits, op, op.now.wall);
    }
  }

  /** With a steady clock `Stale` means exactly that the timestamp is more than five minutes off. */
  lemma WatermarkNeverBinds(limits: Limits, ops: seq<Op>, j: nat)
    requires limits.maxPerKey >= 1
    requires j < |ops| && SteadyClock(ops[..j + 1]) && !ops[j].Prune?
    ensures AnswerTo(limits, ops, j) == Stale <==> !(-300 <= ops[j].ts - ops[j].now.wall <= 300)
  {
    var op, g := ops[j], After(limits, ops[..j]);
    var upto := ops[..j + 1];
    assert upto[..j] == ops[..j] && upto[j] == op;
    assert forall i :: 0 <= i < j ==> ops[..j][i] == upto[i];
    RunDroppedBehind(limits, ops[..j], op.now.wall);
    assert FreshAt(op.ts, op.now.wall) ==> op.Admit? || op.RaiseFloor? ==> Fresh(g, op.ts, op.now);
    if op.Admit? { NeverStale(Pruned(g, op.now), limits, op); }
  }

  lemma NeverStale(g: Guard, limits: Limits, op: Op)
    requires limits.maxPerKey >= 1 && op.Admit?
    ensures AdmitInto(g, limits, op).1 != Stale
  {
    hide Superseding, Filter, OldestTs, LatestOf;
  }

  // ---------------------------------------------------------------- the same answers

  /** Floors come only from accepted floor raises. */
  ghost predicate FloorLogged(st: KeyState, log: seq<Event>, key: Key) {
    st.floor == I64_MIN || exists f :: FloorRaised(key, f) in log && st.floor == SatAdd(f, 1)
  }

  /** The key's state holds everything the log still needs to judge its fresh requests. */
  ghost predicate KeyExact(st: KeyState, log: seq<Event>, key: Key, wall: i64) {
    && KeyInv(st, log, key)
    && FloorLogged(st, log, key)
    && (forall f :: FloorRaised(key, f) in log && !LapsedAt(f, wall) ==> SatAdd(f, 1) <= st.floor)
    && (forall s, t, d :: Admitted(key, s, t, d) in log && !LapsedAt(t, wall) ==> KeyCovers(st, s, t, d))
  }

  lemma SupersededExact(st: KeyState, log: seq<Event>, key: Key, ts: i64, wall: i64)
    requires KeyExact(st, log, key, wall) && FreshAt(ts, wall)
    ensures ts < st.floor <==> Superseded(log, key, ts)
  {
    if f :| FloorRaised(key, f) in log && ts < SatAdd(f, 1) {
      assert !LapsedAt(f, wall);
    }
  }

  /** Whether the scope has moved past `ts`, by the marks and by the log. */
  lemma NewerExact(st: KeyState, log: seq<Event>, key: Key, scope: Scope, ts: i64, now: Now)
    requires KeyExact(st, log, key, now.wall) && FreshAt(ts, now.wall) && ts >= st.floor
    ensures (exists m :: m in Filter(Unlapsed(now.PruneClock()), st.marks) && m.scope == scope && ts < m.ts)
       <==> (exists t, d :: Admitted(key, scope, t, d) in log && ts < t)
  {
    var live := Filter(Unlapsed(now.PruneClock()), st.marks);
    if m :| m in live && m.scope == scope && ts < m.ts {
      assert Admitted(key, scope, m.ts, m.digest) in log;
    }
    if t, d :| Admitted(key, scope, t, d) in log && ts < t {
      assert KeyCovers(st, scope, t, d);
      var m :| m in st.marks && m.scope == scope && ts < m.ts;
      assert m in live;
    }
  }

  /** Whether this very request is remembered, by the marks and by the log. */
  lemma SameExact(st: KeyState, log: seq<Event>, key: Key, scope: Scope, ts: i64, digest: Digest, now: Now)
    requires KeyExact(st, log, key, now.wall) && FreshAt(ts, now.wall) && ts >= st.floor
    requires !exists t, d :: Admitted(key, scope, t, d) in log && ts < t
    ensures Mark(scope, ts, digest) in Filter(Unlapsed(now.PruneClock()), st.marks)
       <==> Admitted(key, scope, ts, digest) in log
  {
    if Admitted(key, scope, ts, digest) in log {
      assert KeyCovers(st, scope, ts, digest);
      assert forall m :: m in st.marks && m.scope == scope ==> Admitted(key, scope, m.ts, m.digest) in log;
    }
  }

  /** A scope's latest live mark is what the log accepted last, unless that has lapsed. */
  lemma LastExact(st: KeyState, log: seq<Event>, key: Key, scope: Scope, ts: i64, digest: Digest, now: Now)
    requires KeyExact(st, log, key, now.wall) && FreshAt(ts, now.wall) && ts >= st.floor
    requires !exists t, d :: Admitted(key, scope, t, d) in log && ts < t
    ensures LatestOf(scope, Filter(Unlapsed(now.PruneClock()), st.marks)) == Some(Mark(scope, ts, digest))
       <==> LastAdmitted(log, key, scope) == Some(Mark(scope, ts, digest))
  {
    var clock := now.PruneClock();
    FilterMarksLogged(Unlapsed(clock), st.marks, log, key);
    if LastAdmitted(log, key, scope) == Some(Mark(scope, ts, digest)) {
      SameExact(st, log, key, scope, ts, digest, now);
      assert LatestOf(scope, Filter(Unlapsed(clock), st.marks)).Some?;
    }
  }

  /** The guard's refusals, put in the log's terms. */
  lemma RefusalByMarks(st: KeyState, live: seq<Mark>, scope: Scope, ts: i64, digest: Digest, mode: Mode)
    requires forall m, n :: m in live && n in live && m.scope == n.scope ==> m.ts == n.ts
    ensures Refusal(st.floor, live, scope, ts, digest, mode) ==
            if ts < st.floor then Some(Replay)
            else if exists m :: m in live && m.scope == scope && ts < m.ts then Some(Replay)
            else if mode == IdempotentRepeat && LatestOf(scope, live) == Some(Mark(scope, ts, digest)) then Some(Repeat)
            else if Mark(scope, ts, digest) in live then Some(Replay)
            else None
  {
    var mine := Filter(OfScope(scope), live);
    assert forall m :: m in mine <==> m in live && m.scope == scope;
    if Mark(scope, ts, digest) in live {
      assert Mark(scope, ts, digest) in mine;
      var i :| 0 <= i < |live| && live[i] == Mark(scope, ts, digest);
    }
    var latest := LatestOf(scope, live);
    if latest.Some? { assert latest.value in mine; }
  }

  /** The request is refused outright, or its mark is within both mark limits once the lapsed and
      the superseded ones are gone. */
  predicate MarkFits(st: KeyState, op: Op, poolFull: bool, maxPerKey: nat)
    requires op.Admit?
  {
    var live := Filter(Unlapsed(op.now.PruneClock()), st.marks);
    var kept := Superseding(op.scope, op.ts, live);
    Refusal(st.floor, live, op.scope, op.ts, op.digest, op.mode).None? ==>
      |kept| < maxPerKey && !(poolFull && |kept| == |st.marks|)
  }

  /** Nothing but a mark limit speaks against the request, and its key has no older mark to give
      up for it. */
  predicate TurnedAway(st: KeyState, op: Op, poolFull: bool, maxPerKey: nat)
    requires op.Admit?
  {
    var live := Filter(Unlapsed(op.now.PruneClock()), st.marks);
    var kept := Superseding(op.scope, op.ts, live);
    && Refusal(st.floor, live, op.scope, op.ts, op.digest, op.mode).None?
    && !MarkFits(st, op, poolFull, maxPerKey)
    && (kept == [] || (op.ts <= OldestTs(kept).value && op.ts < I64_MAX))
  }

  /** The log refuses what the key's floor and marks refuse, and nothing else. */
  lemma RefusalIsLogs(st: KeyState, log: seq<Event>, op: Op)
    requires op.Admit? && FreshAt(op.ts, op.now.wall)
    requires KeyExact(st, log, op.key, op.now.wall)
    ensures var live := Filter(Unlapsed(op.now.PruneClock()), st.marks);
            LogAnswer(log, op) == match Refusal(st.floor, live, op.scope, op.ts, op.digest, op.mode)
                                  case Some(refusal) => refusal
                                  case None => Accepted
  {
    hide Refusal, Superseding, Filter, LatestOf, LastAdmitted, FloorLogged, MarksLogged, KeyCovers, Superseded;
    var live := Filter(Unlapsed(op.now.PruneClock()), st.marks);
    RefusalByMarks(st, live, op.scope, op.ts, op.digest, op.mode);
    SupersededExact(st, log, op.key, op.ts, op.now.wall);
    if op.ts >= st.floor {
      NewerExact(st, log, op.key, op.scope, op.ts, op.now);
      if !exists t, d :: Admitted(op.key, op.scope, t, d) in log && op.ts < t {
        SameExact(st, log, op.key, op.scope, op.ts, op.digest, op.now);
        LastExact(st, log, op.key, op.scope, op.ts, op.digest, op.now);
      }
    }
  }

  lemma NotBelowFloor(st: KeyState, live: seq<Mark>, op: Op)
    requires op.Admit? && Refusal(st.floor, live, op.scope, op.ts, op.digest, op.mode).None?
    ensures st.floor <= op.ts
  {
  }

  /** The decision is the log's exactly when the request is not turned away at a limit. */
  lemma DecideIsLogsIff(st: KeyState, log: seq<Event>, op: Op, poolFull: bool, maxPerKey: nat)
    requires op.Admit? && FreshAt(op.ts, op.now.wall) && maxPerKey >= 1
    requires KeyExact(st, log, op.key, op.now.wall)
    ensures var clock := op.now.PruneClock();
            Decide(st, op.scope, op.ts, op.digest, op.mode, clock, poolFull, maxPerKey).0 == LogAnswer(log, op)
            <==> !TurnedAway(st, op, poolFull, maxPerKey)
  {
    hide Refusal, Superseding, KeyExact, LogAnswer, OldestTs, Filter;
    RefusalIsLogs(st, log, op);
    var live := Filter(Unlapsed(op.now.PruneClock()), st.marks);
    if Refusal(st.floor, live, op.scope, op.ts, op.digest, op.mode).None? { NotBelowFloor(st, live, op); }
  }

  /** For a key with room for the mark, the decision is the log's and no floor is raised. */
  lemma DecideIsLogs(st: KeyState, log: seq<Event>, op: Op, poolFull: bool, maxPerKey: nat)
    requires op.Admit? && FreshAt(op.ts, op.now.wall)
    requires KeyExact(st, log, op.key, op.now.wall)
    requires maxPerKey >= 1 && MarkFits(st, op, poolFull, maxPerKey)
    ensures var clock := op.now.PruneClock();
            var (answer, st') := Decide(st, op.scope, op.ts, op.digest, op.mode, clock, poolFull, maxPerKey);
            answer == LogAnswer(log, op) && st'.floor == st.floor
  {
    hide Refusal, Superseding, KeyExact, LogAnswer;
    RefusalIsLogs(st, log, op);
  }

  lemma RoomAfterSuperseding(st: KeyState, live: seq<Mark>, scope: Scope, ts: i64)
    ensures |Superseding(scope, ts, live)| <= |live|
  {
  }

  // ---------------------------------------------------------------- runs with room

  ghost predicate Exact(g: Guard, log: seq<Event>, wall: i64) {
    && Inv(g, log)
    && DroppedBehind(g, wall)
    && forall k :: k in g.keys ==> FloorLogged(g.keys[k], log, k)
  }

  /** No limit stands in this request's way: there is a place for its key once the lapsed ones are
      gone, and for its mark if it comes to that. */
  ghost predicate Roomy(g: Guard, limits: Limits, op: Op) {
    (op.Admit? || op.RaiseFloor?) && Fresh(g, op.ts, op.now) ==>
      var p := Pruned(g, op.now);
      && (op.key in p.keys || (|p.keys| < limits.maxKeys && TotalMarks(p.keys) < limits.maxMarks))
      && (op.Admit? ==> MarkFits(StateOf(p, op.key), op, TotalMarks(p.keys) >= limits.maxMarks, limits.maxPerKey))
  }

  /** An unlapsed event is covered by its key's own state, dropped protection aside. */
  lemma ExactKey(g: Guard, log: seq<Event>, key: Key, wall: i64)
    requires Exact(g, log, wall) && wall >= 0
    ensures KeyExact(StateOf(g, key), log, key, wall)
  {
    forall e | e in log && e.key == key && !LapsedAt(e.ts, wall)
      ensures key in g.keys
    {
      assert Covers(g, e);
    }
    forall s, t, d | Admitted(key, s, t, d) in log && !LapsedAt(t, wall)
      ensures KeyCovers(StateOf(g, key), s, t, d)
    {
      assert Covers(g, Admitted(key, s, t, d));
    }
    forall f | FloorRaised(key, f) in log && !LapsedAt(f, wall)
      ensures SatAdd(f, 1) <= StateOf(g, key).floor
    {
      assert Covers(g, FloorRaised(key, f));
    }
  }

  lemma SubMapSize(part: map<Key, KeyState>, whole: map<Key, KeyState>)
    requires part.Keys <= whole.Keys
    ensures |part| <= |whole|
  {
    SubsetSize(part.Keys, whole.Keys);
  }

  lemma PrunedExact(g: Guard, log: seq<Event>, now: Now)
    requires Exact(g, log, now.wall)
    ensures Exact(Pruned(g, now), log, now.wall)
  {
    hide Inv, FloorLogged;
    PrunedInv(g, log, now);
    ApplyDroppedBehind(g, Limits(1, 1, 1), Prune(now), now.wall);
  }

  lemma AdmitIsLogs(g: Guard, limits: Limits, log: seq<Event>, op: Op)
    requires limits.maxPerKey >= 1 && op.Admit?
    requires op.now.wall >= 0 && Exact(g, log, op.now.wall)
    requires Roomy(g, limits, op)
    ensures var (g', answer) := AdmitStep(g, limits, op);
            answer == LogAnswer(log, op) && forall k :: k in g'.keys ==>
                FloorLogged(g'.keys[k], Logged(log, op, answer), k)
  {
    hide Decide, KeyExact, FloorLogged, Inv;
    if FreshAt(op.ts, op.now.wall) {
      var p := Pruned(g, op.now);
      PrunedExact(g, log, op.now);
      ExactKey(p, log, op.key, op.now.wall);
      DecideIsLogs(StateOf(p, op.key), log, op, TotalMarks(p.keys) >= limits.maxMarks, limits.maxPerKey);
      AdmitFloors(p, limits, log, op);
    }
  }

  lemma RaiseIsLogs(g: Guard, limits: Limits, log: seq<Event>, op: Op)
    requires op.RaiseFloor?
    requires op.now.wall >= 0 && Exact(g, log, op.now.wall)
    requires Roomy(g, limits, op)
    ensures var (g', answer) := RaiseFloorStep(g, limits, op);
            answer == LogAnswer(log, op) && forall k :: k in g'.keys ==>
                FloorLogged(g'.keys[k], Logged(log, op, answer), k)
  {
    hide KeyExact, FloorLogged, Inv, Superseded;
    if FreshAt(op.ts, op.now.wall) {
      var p := Pruned(g, op.now);
      PrunedExact(g, log, op.now);
      ExactKey(p, log, op.key, op.now.wall);
      SupersededExact(StateOf(p, op.key), log, op.key, op.ts, op.now.wall);
      RaiseFloors(p, log, op.key, op.ts);
    }
  }

  /** With room and a steady clock one step answers as the log does, and stays exact. */
  lemma StepIsLogs(g: Guard, limits: Limits, log: seq<Event>, op: Op)
    requires limits.maxPerKey >= 1
    requires op.now.wall >= 0 && Exact(g, log, op.now.wall)
    requires Roomy(g, limits, op)
    ensures var (g', answer) := Apply(g, limits, op);
            answer == LogAnswer(log, op) && Exact(g', Logged(log, op, answer), op.now.wall)
  {
    hide AdmitStep, RaiseFloorStep, Inv, FloorLogged, Superseded, KeyExact, Pruned;
    ApplyInv(g, limits, log, op);
    ApplyDroppedBehind(g, limits, op, op.now.wall);
    match op {
      case Prune(now) => PrunedExact(g, log, now);
      case CheckFloor(key, ts, now) =>
        ExactKey(g, log, key, now.wall);
        if FreshAt(ts, now.wall) { SupersededExact(StateOf(g, key), log, key, ts, now.wall); }
      case Admit(_, _, _, _, _, _) => AdmitIsLogs(g, limits, log, op);
      case RaiseFloor(_, _, _) => RaiseIsLogs(g, limits, log, op);
    }
  }

  /** A fresh request meets a limit and has nothing of its own to give up. */
  ghost predicate LimitRefuses(g: Guard, limits: Limits, op: Op) {
    && (op.Admit? || op.RaiseFloor?) && Fresh(g, op.ts, op.now)
    && var p := Pruned(g, op.now);
       || (op.key !in p.keys && (|p.keys| >= limits.maxKeys || TotalMarks(p.keys) >= limits.maxMarks))
       || (op.Admit? && TurnedAway(StateOf(p, op.key), op, TotalMarks(p.keys) >= limits.maxMarks, limits.maxPerKey))
  }

  /** An exact guard answers as the log does exactly when no limit refuses the request. */
  lemma StepAnswersIff(g: Guard, limits: Limits, log: seq<Event>, op: Op)
    requires limits.maxPerKey >= 1
    requires op.now.wall >= 0 && Exact(g, log, op.now.wall)
    ensures Apply(g, limits, op).1 == LogAnswer(log, op) <==> !LimitRefuses(g, limits, op)
  {
    hide Inv, FloorLogged, Superseded, KeyExact, Pruned, Decide, TurnedAway;
    if (op.Admit? || op.RaiseFloor?) && Fresh(g, op.ts, op.now) {
      var p := Pruned(g, op.now);
      PrunedExact(g, log, op.now);
      ExactKey(p, log, op.key, op.now.wall);
      if op.Admit? {
        DecideIsLogsIff(StateOf(p, op.key), log, op, TotalMarks(p.keys) >= limits.maxMarks, limits.maxPerKey);
      } else {
        SupersededExact(StateOf(p, op.key), log, op.key, op.ts, op.now.wall);
      }
    } else {
      RoomyOtherwise(g, limits, op);
      StepIsLogs(g, limits, log, op);
    }
  }

  lemma RoomyOtherwise(g: Guard, limits: Limits, op: Op)
    requires !((op.Admit? || op.RaiseFloor?) && Fresh(g, op.ts, op.now))
    ensures Roomy(g, limits, op)
  {
  }

  lemma AdmitFloors(g: Guard, limits: Limits, log: seq<Event>, op: Op)
    requires op.Admit? && limits.maxPerKey >= 1
    requires forall k :: k in g.keys ==> FloorLogged(g.keys[k], log, k)
    requires Decide(StateOf(g, op.key), op.scope, op.ts, op.digest, op.mode, op.now.PruneClock(),
                    TotalMarks(g.keys) >= limits.maxMarks, limits.maxPerKey).1.floor == StateOf(g, op.key).floor
    ensures var (g', answer) := AdmitInto(g, limits, op);
            forall k :: k in g'.keys ==> FloorLogged(g'.keys[k], Logged(log, op, answer), k)
  {
    hide Decide;
    var (g', answer) := AdmitInto(g, limits, op);
    forall k | k in g'.keys
      ensures FloorLogged(g'.keys[k], Logged(log, op, answer), k)
    {
      assert FloorLogged(StateOf(g, k), log, k);
    }
  }

  lemma RaiseFloors(g: Guard, log: seq<Event>, key: Key, ts: i64)
    requires forall k :: k in g.keys ==> FloorLogged(g.keys[k], log, k)
    ensures var (g', answer) := RaiseFloorInto(g, key, ts);
            answer == Accepted ==>
              forall k :: k in g'.keys ==> FloorLogged(g'.keys[k], log + [FloorRaised(key, ts)], k)
  {
    var (g', answer) := RaiseFloorInto(g, key, ts);
    if answer == Accepted {
      forall k | k in g'.keys
        ensures FloorLogged(g'.keys[k], log + [FloorRaised(key, ts)], k)
      {
        assert FloorRaised(key, ts) in log + [FloorRaised(key, ts)];
        assert FloorLogged(StateOf(g, k), log, k);
      }
    }
  }

  // ---------------------------------------------------------------- limits

  /** All three limits. */
  ghost predicate WithinLimits(g: Guard, limits: Limits) {
    && |g.keys| <= limits.maxKeys
    && TotalMarks(g.keys) <= limits.maxMarks
    && forall k :: k in g.keys ==> |g.keys[k].marks| <= limits.maxPerKey
  }

  /** Raising the floor past the oldest mark drops nothing, and the request is not below it: both
      are at the last representable second. */
  predicate Stuck(marks: seq<Mark>, ts: i64) {
    ts == I64_MAX && marks != [] && OldestTs(marks) == Some(I64_MAX)
  }

  /** Raising the floor past its oldest mark takes at least that mark off a key, unless it saturates. */
  lemma GivesUpOldest(st: KeyState)
    requires st.marks != []
    ensures var oldest, raised := OldestTs(st.marks).value, RaiseFloorOf(st, SatAdd(OldestTs(st.marks).value, 1));
            if oldest < I64_MAX then |raised.marks| < |st.marks|
            else raised.marks == st.marks && raised.floor == I64_MAX
  {
    hide Filter;
    var oldest := OldestTs(st.marks).value;
    var floor := Max(st.floor, SatAdd(oldest, 1));
    var m :| m in st.marks && m.ts == oldest;
    if oldest < I64_MAX {
      FilterDrops(AtLeast(floor), st.marks, m);
    } else {
      FilterKeeps(AtLeast(floor), st.marks);
    }
  }

  /** Placing a mark keeps the key within its limit, and a full pool from growing, exactly when it
      is not stuck at that limit. */
  lemma PlaceWithinLimit(st: KeyState, mark: Mark, full: bool, maxPerKey: nat)
    requires maxPerKey >= 1 && |st.marks| <= maxPerKey
    ensures var r := Place(st, mark, full, maxPerKey).1;
            && |r.marks| <= |st.marks| + 1
            && (|r.marks| <= maxPerKey <==> !(|st.marks| >= maxPerKey && Stuck(st.marks, mark.ts)))
            && (full ==> (|r.marks| <= |st.marks| <==> !Stuck(st.marks, mark.ts)))
  {
    hide RaiseFloorOf, OldestTs;
    if st.marks != [] { GivesUpOldest(st); }
  }

  /** The request would be placed at a limit where its key is stuck. */
  predicate StuckIn(st: KeyState, op: Op, poolFull: bool, maxPerKey: nat)
    requires op.Admit?
  {
    var live := Filter(Unlapsed(op.now.PruneClock()), st.marks);
    var kept := Superseding(op.scope, op.ts, live);
    && Refusal(st.floor, live, op.scope, op.ts, op.digest, op.mode).None?
    && Stuck(kept, op.ts)
    && (|kept| >= maxPerKey || (poolFull && |kept| == |st.marks|))
  }

  lemma DecideWithinLimit(st: KeyState, op: Op, poolFull: bool, maxPerKey: nat)
    requires op.Admit? && maxPerKey >= 1 && |st.marks| <= maxPerKey
    ensures var r := Decide(st, op.scope, op.ts, op.digest, op.mode, op.now.PruneClock(), poolFull, maxPerKey).1;
            && |r.marks| <= |st.marks| + 1
            && (|r.marks| <= maxPerKey && (poolFull ==> |r.marks| <= |st.marks|) <==>
                  !StuckIn(st, op, poolFull, maxPerKey))
  {
    hide Refusal, Place, Superseding, Stuck;
    var live := Filter(Unlapsed(op.now.PruneClock()), st.marks);
    var kept := Superseding(op.scope, op.ts, live);
    RoomAfterSuperseding(st, live, op.scope, op.ts);
    PlaceWithinLimit(st.(marks := kept), Mark(op.scope, op.ts, op.digest), poolFull && |kept| == |st.marks|, maxPerKey);
  }

  lemma TotalWith(keys: map<Key, KeyState>, key: Key, st: KeyState)
    ensures TotalMarks(keys[key := st]) + (if key in keys then |keys[key].marks| else 0)
         == TotalMarks(keys) + |st.marks|
  {
    SumUpdate(MarkCounts(keys), key, |st.marks|);
    assert MarkCounts(keys[key := st]) == MarkCounts(keys)[key := |st.marks|];
  }

  lemma PrunedWithin(g: Guard, limits: Limits, now: Now)
    requires WithinLimits(g, limits)
    ensures WithinLimits(Pruned(g, now), limits)
  {
    SumPart(MarkCounts(Pruned(g, now).keys), MarkCounts(g.keys));
    SubMapSize(Pruned(g, now).keys, g.keys);
  }

  lemma RaiseWithin(g: Guard, limits: Limits, key: Key, ts: i64)
    requires WithinLimits(g, limits) && HasRoom(g, key, limits)
    ensures WithinLimits(RaiseFloorInto(g, key, ts).0, limits)
  {
    TotalWith(g.keys, key, Reindexed(RaiseFloorOf(StateOf(g, key), SatAdd(ts, 1))));
  }

  lemma AdmitWithinIff(g: Guard, limits: Limits, op: Op)
    requires limits.maxPerKey >= 1 && op.Admit?
    requires WithinLimits(g, limits) && HasRoom(g, op.key, limits)
    ensures WithinLimits(AdmitInto(g, limits, op).0, limits) <==>
            !StuckIn(StateOf(g, op.key), op, TotalMarks(g.keys) >= limits.maxMarks, limits.maxPerKey)
  {
    hide Decide, StuckIn, Sum;
    var st, poolFull := StateOf(g, op.key), TotalMarks(g.keys) >= limits.maxMarks;
    DecideWithinLimit(st, op, poolFull, limits.maxPerKey);
    var r := Decide(st, op.scope, op.ts, op.digest, op.mode, op.now.PruneClock(), poolFull, limits.maxPerKey).1;
    var keys := g.keys[op.key := Reindexed(r)];
    TotalWith(g.keys, op.key, Reindexed(r));
    assert keys[op.key].marks == r.marks;
    assert |keys| <= limits.maxKeys by { assert keys.Keys == g.keys.Keys + {op.key}; }
  }

  /** The request is fresh, has room for its key, and is stuck at a mark limit. */
  ghost predicate Overflows(g: Guard, limits: Limits, op: Op) {
    && op.Admit? && Fresh(g, op.ts, op.now)
    && var p := Pruned(g, op.now);
       && (op.key in p.keys || (|p.keys| < limits.maxKeys && TotalMarks(p.keys) < limits.maxMarks))
       && StuckIn(StateOf(p, op.key), op, TotalMarks(p.keys) >= limits.maxMarks, limits.maxPerKey)
  }

  /** An operation keeps all three limits exactly when it is not stuck at one. */
  lemma ApplyWithinIff(g: Guard, limits: Limits, op: Op)
    requires limits.maxPerKey >= 1 && WithinLimits(g, limits)
    ensures WithinLimits(Apply(g, limits, op).0, limits) <==> !Overflows(g, limits, op)
  {
    hide AdmitInto, RaiseFloorInto, WithinLimits, Pruned, StuckIn, Sum;
    var p := Pruned(g, op.now);
    PrunedWithin(g, limits, op.now);
    match op {
      case Admit(_, _, _, _, _, _) =>
        if HasRoom(p, op.key, limits) { AdmitWithinIff(p, limits, op); }
      case RaiseFloor(key, ts, _) =>
        if HasRoom(p, key, limits) { RaiseWithin(p, limits, key, ts); }
      case _ =>
    }
  }

  /** All three limits hold throughout a run exactly when no request in it is stuck at one, which
      takes marks and a request all at the last representable second. */
  lemma {:induction false} LimitsHoldIff(limits: Limits, ops: seq<Op>)
    requires limits.maxPerKey >= 1
    ensures (forall i :: 0 <= i <= |ops| ==> WithinLimits(After(limits, ops[..i]), limits)) <==>
            (forall i :: 0 <= i < |ops| ==> !Overflows(After(limits, ops[..i]), limits, ops[i]))
  {
    hide Apply, WithinLimits, Overflows;
    if ops == [] {
      EmptyWithin(limits);
      assert ops[..0] == [];
    } else {
      var n := |ops| - 1;
      var init := ops[..n];
      assert forall i :: 0 <= i <= n ==> init[..i] == ops[..i];
      assert ops[..|ops|] == ops && init[..n] == init;
      var g := After(limits, init);
      assert After(limits, ops) == Apply(g, limits, ops[n]).0;
      hide After;
      LimitsHoldIff(limits, init);
      if WithinLimits(g, limits) { ApplyWithinIff(g, limits, ops[n]); }
    }
  }

  lemma EmptyWithin(limits: Limits)
    ensures WithinLimits(EMPTY, limits)
  {
    Empties<Key, nat>();
    assert MarkCounts(EMPTY.keys) == map[];
  }

  /** Two requests of one scope at that second leave a key limited to one mark with two. */
  lemma LastSecondOverflows(key: Key, scope: Scope)
    ensures var now, limits := Now(I64_MAX, I64_MAX), Limits(1, 1, 1);
            var ops := [Admit(key, scope, I64_MAX, 1, OneTime, now), Admit(key, scope, I64_MAX, 2, OneTime, now)];
            var keys := After(limits, ops).keys;
            key in keys && |keys[key].marks| == 2
  {
    hide DroppedWith, Sum;
    var now, limits := Now(I64_MAX, I64_MAX), Limits(1, 1, 1);
    var ops := [Admit(key, scope, I64_MAX, 1, OneTime, now), Admit(key, scope, I64_MAX, 2, OneTime, now)];
    assert ops[..1] == [ops[0]] && ops[..1][..0] == [];
    assert After(limits, []) == EMPTY;
    Empties<Key, nat>();
    FirstAtLastSecond(limits, ops[0]);
    assert After(limits, ops[..1]) == Apply(EMPTY, limits, ops[0]).0;
    SecondAtLastSecond(Apply(EMPTY, limits, ops[0]).0, limits, ops[1], ops[0]);
  }

  ghost predicate HoldsOnly(g: Guard, key: Key, m: Mark) {
    g.keys == map[key := KeyState(I64_MIN, m.ts, [m])] && g.dropped == I64_MIN
  }

  lemma FirstAtLastSecond(limits: Limits, op: Op)
    requires limits == Limits(1, 1, 1) && op.Admit? && op.ts == I64_MAX && op.now == Now(I64_MAX, I64_MAX)
    ensures HoldsOnly(Apply(EMPTY, limits, op).0, op.key, Mark(op.scope, op.ts, op.digest))
  {
    hide Sum;
    Empties<Key, nat>();
    var p := Pruned(EMPTY, op.now);
    assert p.keys == map[] && MarkCounts(p.keys) == map[];
    assert Filter(Unlapsed(I64_MAX), []) == [] && Filter(OfScope(op.scope), []) == [] &&
        Filter(Lapsed(I64_MAX), []) == [];
    var m := Mark(op.scope, op.ts, op.digest);
    assert [] + [m] == [m];
    assert NewestTs([m]) == Some(m.ts) by { assert m in [m]; }
  }

  lemma SecondAtLastSecond(g: Guard, limits: Limits, op: Op, first: Op)
    requires limits == Limits(1, 1, 1) && op.Admit? && op.ts == I64_MAX && op.now == Now(I64_MAX, I64_MAX)
    requires first.Admit? && first.key == op.key && first.scope == op.scope && first.digest != op.digest
    requires op.mode == OneTime && HoldsOnly(g, op.key, Mark(op.scope, I64_MAX, first.digest))
    ensures var keys := Apply(g, limits, op).0.keys;
            op.key in keys && |keys[op.key].marks| == 2
  {
    hide Sum, Filter;
    var m := Mark(op.scope, I64_MAX, first.digest);
    var p := Pruned(g, op.now);
    assert p.keys == g.keys;
    FilterKeeps(Unlapsed(I64_MAX), [m]);
    FilterKeeps(OfScope(op.scope), [m]);
    assert m in [m];
    assert NewestTs([m]) == Some(I64_MAX);
    GivesUpOldest(KeyState(I64_MIN, I64_MAX, [m]));
  }

  /** Below that second the limits always hold. */
  lemma LimitsHold(limits: Limits, ops: seq<Op>)
    requires limits.maxPerKey >= 1
    requires forall i :: 0 <= i < |ops| && ops[i].Admit? ==> ops[i].ts < I64_MAX
    ensures WithinLimits(After(limits, ops), limits)
  {
    hide After, WithinLimits;
    LimitsHoldIff(limits, ops);
    assert ops[..|ops|] == ops;
  }

  lemma AdmitWithinKeys(g: Guard, limits: Limits, op: Op)
    requires limits.maxPerKey >= 1 && op.Admit? && |g.keys| <= limits.maxKeys && HasRoom(g, op.key, limits)
    ensures |AdmitInto(g, limits, op).0.keys| <= limits.maxKeys
  {
    hide Decide, Sum, Reindexed, DroppedMarks;
    OneMoreKey(g.keys, AdmitInto(g, limits, op).0.keys, op.key);
  }

  lemma RaiseWithinKeys(g: Guard, limits: Limits, key: Key, ts: i64)
    requires |g.keys| <= limits.maxKeys && HasRoom(g, key, limits)
    ensures |RaiseFloorInto(g, key, ts).0.keys| <= limits.maxKeys
  {
    hide Sum, RaiseFloorOf, Reindexed;
    if ts >= StateOf(g, key).floor { OneMoreKey(g.keys, RaiseFloorInto(g, key, ts).0.keys, key); }
  }

  lemma ApplyKeyLimit(g: Guard, limits: Limits, op: Op)
    requires limits.maxPerKey >= 1 && |g.keys| <= limits.maxKeys
    ensures |Apply(g, limits, op).0.keys| <= limits.maxKeys
  {
    var p := Pruned(g, op.now);
    SubMapSize(p.keys, g.keys);
    hide AdmitInto, RaiseFloorInto, HasRoom, Pruned;
    match op {
      case Admit(_, _, _, _, _, _) =>
        if HasRoom(p, op.key, limits) { AdmitWithinKeys(p, limits, op); }
      case RaiseFloor(key, ts, _) =>
        if HasRoom(p, key, limits) { RaiseWithinKeys(p, limits, key, ts); }
      case _ =>
    }
  }

  lemma OneMoreKey(keys: map<Key, KeyState>, keys': map<Key, KeyState>, key: Key)
    requires keys'.Keys == keys.Keys + {key}
    ensures |keys'| == if key in keys then |keys| else |keys| + 1
  {
    assert |keys'| == |keys'.Keys| && |keys| == |keys.Keys|;
    if key in keys { assert keys.Keys + {key} == keys.Keys; }
  }

  /** The key limit holds in every run. */
  lemma {:induction false} KeyLimitHolds(limits: Limits, ops: seq<Op>)
    requires limits.maxPerKey >= 1
    ensures |After(limits, ops).keys| <= limits.maxKeys
  {
    if ops != [] {
      hide Apply;
      KeyLimitHolds(limits, ops[..|ops| - 1]);
      ApplyKeyLimit(After(limits, ops[..|ops| - 1]), limits, ops[|ops| - 1]);
    }
  }

  /** Only the requesting key pays: another key inside the window is untouched,
      and a horizon never goes back. */
  lemma OnlyOwnKeyChanges(g: Guard, limits: Limits, op: Op, k: Key)
    requires limits.maxPerKey >= 1
    requires k in g.keys && !LapsedAt(g.keys[k].horizon, op.now.PruneClock())
    ensures var g' := Apply(g, limits, op).0;
            && k in g'.keys
            && g.keys[k].horizon <= g'.keys[k].horizon
            && g.keys[k].floor <= g'.keys[k].floor
            && (op.Prune? || k != op.key ==> g'.keys[k] == g.keys[k])
  {
    hide Decide;
    var p := Pruned(g, op.now);
    assert k in p.keys && p.keys[k] == g.keys[k];
    if op.Admit? {
      DecideFloor(StateOf(p, op.key), op.scope, op.ts, op.digest, op.mode, op.now.PruneClock(),
                  TotalMarks(p.keys) >= limits.maxMarks, limits.maxPerKey);
      DecideHorizon(StateOf(p, op.key), op.scope, op.ts, op.digest, op.mode, op.now.PruneClock(),
                    TotalMarks(p.keys) >= limits.maxMarks, limits.maxPerKey);
    }
  }

  lemma DecideHorizon(st: KeyState, scope: Scope, ts: i64, digest: Digest, mode: Mode,
                      clock: i64, poolFull: bool, maxPerKey: nat)
    requires maxPerKey >= 1
    ensures Decide(st, scope, ts, digest, mode, clock, poolFull, maxPerKey).1.horizon == st.horizon
  {
  }

  // ---------------------------------------------------------------- the log alone

  /** The accepted requests of a server that answers from its log alone. */
  ghost function LogRun(ops: seq<Op>): seq<Event> {
    if ops == [] then []
    else
      var log := LogRun(ops[..|ops| - 1]);
      Logged(log, ops[|ops| - 1], LogAnswer(log, ops[|ops| - 1]))
  }

  ghost predicate AlwaysRoomy(limits: Limits, ops: seq<Op>)
    requires limits.maxPerKey >= 1
  {
    forall i :: 0 <= i < |ops| ==> Roomy(After(limits, ops[..i]), limits, ops[i])
  }

  lemma EmptyExact(wall: i64)
    ensures Exact(EMPTY, [], wall)
  {
  }

  lemma {:induction false} RunExact(limits: Limits, ops: seq<Op>, wall: i64)
    requires limits.maxPerKey >= 1
    requires SteadyClock(ops) && AlwaysRoomy(limits, ops)
    requires forall i :: 0 <= i < |ops| ==> ops[i].now.wall <= wall
    ensures LogAfter(limits, ops) == LogRun(ops)
    ensures Exact(After(limits, ops), LogRun(ops), wall)
  {
    hide Apply, Roomy, LogAnswer, Inv, FloorLogged;
    EmptyExact(wall);
    if ops != [] {
      var init, op := ops[..|ops| - 1], ops[|ops| - 1];
      assert forall i :: 0 <= i < |init| ==> init[..i] == ops[..i];
      RunExact(limits, init, op.now.wall);
      assert Roomy(After(limits, ops[..|ops| - 1]), limits, op);
      StepIsLogs(After(limits, init), limits, LogRun(init), op);
    }
  }

  /** While no request has to give way to a limit and the clock is steady, the bounded guard and
      the unbounded log give the same answer to every request of the run. */
  lemma SameAnswersAsLog(limits: Limits, ops: seq<Op>, j: nat)
    requires limits.maxPerKey >= 1
    requires SteadyClock(ops) && AlwaysRoomy(limits, ops)
    requires j < |ops|
    ensures AnswerTo(limits, ops, j) == LogAnswer(LogRun(ops[..j]), ops[j])
  {
    hide Apply, Roomy, LogAnswer, Inv, FloorLogged;
    var init := ops[..j];
    assert forall i :: 0 <= i < |init| ==> init[..i] == ops[..i];
    RunExact(limits, init, ops[j].now.wall);
    StepIsLogs(After(limits, init), limits, LogRun(init), ops[j]);
  }

  /** The first request of such a run to meet a limit is answered as the log would exactly when the
      limit does not refuse it. */
  lemma FirstDifference(limits: Limits, ops: seq<Op>, j: nat)
    requires limits.maxPerKey >= 1
    requires j < |ops| && SteadyClock(ops) && AlwaysRoomy(limits, ops[..j])
    ensures AnswerTo(limits, ops, j) == LogAnswer(LogRun(ops[..j]), ops[j])
       <==> !LimitRefuses(After(limits, ops[..j]), limits, ops[j])
  {
    hide Apply, Roomy, LogAnswer, Inv, FloorLogged, LimitRefuses;
    RunExact(limits, ops[..j], ops[j].now.wall);
    StepAnswersIff(After(limits, ops[..j]), limits, LogRun(ops[..j]), ops[j]);
  }
}
