/**
 What the replay guard grants: when it says it is full, what a key at its limit pays, and that it
 forgets a key once nothing it accepted from it is recent.
 */
module ReplayService {
  import opened Int64
  import opened MapSum
  import opened Seqs
  import opened ReplaySpec
  import opened ReplaySafety

  // ---------------------------------------------------------------- full

  /** The keys still inside the freshness window, with their states. */
  function LiveKeys(g: Guard, now: Now): map<Key, KeyState> {
    map k | k in g.keys && !LapsedAt(g.keys[k].horizon, now.PruneClock()) :: g.keys[k]
  }

  /** A key not among the live ones finds both limits open. */
  ghost predicate RoomForKey(g: Guard, limits: Limits, now: Now) {
    |LiveKeys(g, now)| < limits.maxKeys && TotalMarks(LiveKeys(g, now)) < limits.maxMarks
  }

  /** A live key without a mark of its own to give up asks for one while the pool is full. */
  ghost predicate NothingToGive(g: Guard, limits: Limits, op: Op) {
    && op.Admit? && op.key in LiveKeys(g, op.now)
    && g.keys[op.key].marks == [] && g.keys[op.key].floor <= op.ts
    && TotalMarks(LiveKeys(g, op.now)) >= limits.maxMarks
  }

  /** `Full` is the answer to a fresh request exactly when its key is not live and a limit on live
      keys or their marks is reached, or it is live and has nothing to give. */
  lemma FullIff(g: Guard, limits: Limits, op: Op)
    requires limits.maxPerKey >= 1 && (op.Admit? || op.RaiseFloor?)
    ensures Apply(g, limits, op).1 == Full <==>
            && Fresh(g, op.ts, op.now)
            && (if op.key in LiveKeys(g, op.now) then NothingToGive(g, limits, op) else !RoomForKey(g, limits, op.now))
  {
    hide DroppedWith, Sum, Filter, OldestTs;
    var p := Pruned(g, op.now);
    assert p.keys == LiveKeys(g, op.now);
    if op.Admit? { DecideFullIff(StateOf(p, op.key), op, TotalMarks(p.keys) >= limits.maxMarks, limits.maxPerKey); }
  }

  lemma DecideFullIff(st: KeyState, op: Op, poolFull: bool, maxPerKey: nat)
    requires op.Admit? && maxPerKey >= 1
    ensures var clock := op.now.PruneClock();
            Decide(st, op.scope, op.ts, op.digest, op.mode, clock, poolFull, maxPerKey).0 == Full
            <==> poolFull && st.marks == [] && st.floor <= op.ts
  {
    hide OldestTs, RaiseFloorOf;
  }

  /** In every run: the first fresh request of a key the guard does not hold is accepted if the live
      keys leave room, and answered `Full` only if they do not. */
  lemma NewKeyServed(limits: Limits, ops: seq<Op>, j: nat)
    requires limits.maxPerKey >= 1 && j < |ops| && (ops[j].Admit? || ops[j].RaiseFloor?)
    requires var g := After(limits, ops[..j]);
             ops[j].key !in LiveKeys(g, ops[j].now) && Fresh(g, ops[j].ts, ops[j].now)
    ensures AnswerTo(limits, ops, j) ==
            if RoomForKey(After(limits, ops[..j]), limits, ops[j].now) then Accepted else Full
  {
    hide DroppedWith, Sum;
    var g, op := After(limits, ops[..j]), ops[j];
    assert Pruned(g, op.now).keys == LiveKeys(g, op.now);
    if op.Admit? { NewKeyAccepted(op, limits.maxPerKey); }
  }

  lemma NewKeyAccepted(op: Op, maxPerKey: nat)
    requires op.Admit? && maxPerKey >= 1
    ensures Decide(NEW_KEY, op.scope, op.ts, op.digest, op.mode, op.now.PruneClock(), false, maxPerKey).0 == Accepted
  {
  }

  // ---------------------------------------------------------------- what a limit costs

  predicate Refuses(floor: i64, marks: seq<Mark>, scope: Scope, ts: i64, digest: Digest, mode: Mode) {
    Refusal(floor, marks, scope, ts, digest, mode).Some?
  }

  lemma RefusesMeans(floor: i64, marks: seq<Mark>, scope: Scope, ts: i64, digest: Digest, mode: Mode)
    requires forall m, n :: m in marks && n in marks && m.scope == n.scope ==> m.ts == n.ts
    ensures Refuses(floor, marks, scope, ts, digest, mode) <==>
            || ts < floor
            || (exists m :: m in marks && m.scope == scope && ts < m.ts)
            || Mark(scope, ts, digest) in marks
  {
    var mine := Filter(OfScope(scope), marks);
    assert forall m :: m in mine <==> m in marks && m.scope == scope;
    if Mark(scope, ts, digest) in marks {
      assert Mark(scope, ts, digest) in mine;
      var i :| 0 <= i < |marks| && marks[i] == Mark(scope, ts, digest);
    }
    var latest := LatestOf(scope, marks);
    if latest.Some? { assert latest.value in mine; }
  }

  /** A key that gives up its oldest mark for a new one refuses, from then on, what it refused before,
      what the new mark rules out, and everything up to the second given up: nothing more. */
  lemma PaysWithOldest(st: KeyState, mark: Mark, full: bool, maxPerKey: nat, scope: Scope, ts: i64, digest: Digest,
                       mode: Mode)
    requires maxPerKey >= 1 && st.marks != [] && (|st.marks| >= maxPerKey || full)
    requires forall m, n :: m in st.marks + [mark] && n in st.marks + [mark] && m.scope == n.scope ==> m.ts == n.ts
    requires Place(st, mark, full, maxPerKey).0 == Accepted
    ensures var after := Place(st, mark, full, maxPerKey).1;
            Refuses(after.floor, after.marks, scope, ts, digest, mode) <==>
            || ts < SatAdd(OldestTs(st.marks).value, 1)
            || Refuses(st.floor, st.marks + [mark], scope, ts, digest, mode)
  {
    hide OldestTs, Refuses;
    var after := Place(st, mark, full, maxPerKey).1;
    var kept := RaiseFloorOf(st, SatAdd(OldestTs(st.marks).value, 1)).marks;
    assert forall m :: m in after.marks <==> m in kept || m == mark;
    assert forall m :: m in kept <==> m in st.marks && m.ts >= after.floor;
    RefusesMeans(after.floor, after.marks, scope, ts, digest, mode);
    RefusesMeans(st.floor, st.marks + [mark], scope, ts, digest, mode);
  }

  // ---------------------------------------------------------------- nothing is kept without cause

  /** Something accepted from the key is as recent as `ts`. */
  ghost predicate Earned(log: seq<Event>, key: Key, ts: i64) { exists e :: e in log && e.key == key && ts <= e.ts }

  ghost predicate AllEarned(g: Guard, log: seq<Event>) {
    forall k :: k in g.keys ==> Earned(log, k, g.keys[k].horizon)
  }

  lemma EarnedStays(log: seq<Event>, e: Event, key: Key, ts: i64)
    requires Earned(log, key, ts)
    ensures Earned(log + [e], key, ts)
  {
    var x :| x in log && x.key == key && ts <= x.ts;
    assert x in log + [e];
  }

  lemma PlaceSources(st: KeyState, mark: Mark, full: bool, maxPerKey: nat)
    requires maxPerKey >= 1
    ensures var (answer, r) := Place(st, mark, full, maxPerKey);
            && r.horizon == st.horizon
            && (r.floor == st.floor || exists m :: m in st.marks && r.floor == SatAdd(m.ts, 1))
            && (forall m :: m in r.marks ==> m in st.marks || (answer == Accepted && m == mark))
  {
    hide OldestTs;
    if st.marks != [] {
      assert OldestTs(st.marks).Some?;
      var m :| m in st.marks && m.ts == OldestTs(st.marks).value;
    }
  }

  /** A decision's floor and marks come from the key's own marks and the request. */
  lemma DecideSources(st: KeyState, op: Op, poolFull: bool, maxPerKey: nat)
    requires op.Admit? && maxPerKey >= 1
    ensures var clock := op.now.PruneClock();
            var (answer, r) := Decide(st, op.scope, op.ts, op.digest, op.mode, clock, poolFull, maxPerKey);
            && r.horizon == st.horizon
            && (r.floor == st.floor || exists m :: m in st.marks && r.floor == SatAdd(m.ts, 1))
            && (forall m :: m in r.marks ==>
                  m in st.marks || (answer == Accepted && m == Mark(op.scope, op.ts, op.digest)))
  {
    hide Place, Refusal, Superseding, Filter;
    var live := Filter(Unlapsed(op.now.PruneClock()), st.marks);
    var kept := Superseding(op.scope, op.ts, live);
    PlaceSources(st.(marks := kept), Mark(op.scope, op.ts, op.digest), poolFull && |kept| == |st.marks|, maxPerKey);
  }

  lemma ReindexedEarned(st: KeyState, log: seq<Event>, key: Key)
    requires Earned(log, key, st.horizon) && Earned(log, key, SatSub(st.floor, 1))
    requires forall m :: m in st.marks ==> Admitted(key, m.scope, m.ts, m.digest) in log
    ensures Earned(log, key, Reindexed(st).horizon)
  {
    hide NewestTs;
    if st.marks != [] {
      assert NewestTs(st.marks).Some?;
      var m :| m in st.marks && m.ts == NewestTs(st.marks).value;
      assert Admitted(key, m.scope, m.ts, m.digest) in log;
    }
  }

  lemma LogKeeps(log: seq<Event>, op: Op, answer: Admission, key: Key, ts: i64)
    requires Earned(log, key, ts)
    ensures Earned(Logged(log, op, answer), key, ts)
  {
    if answer == Accepted && EventOf(op).Some? { EarnedStays(log, EventOf(op).value, key, ts); }
  }

  lemma AdmitKeyEarned(g: Guard, limits: Limits, log: seq<Event>, op: Op)
    requires limits.maxPerKey >= 1 && op.Admit? && Inv(g, log) && AllEarned(g, log)
    requires op.key !in g.keys ==> TotalMarks(g.keys) < limits.maxMarks
    ensures var (g', answer) := AdmitInto(g, limits, op);
            Earned(Logged(log, op, answer), op.key, g'.keys[op.key].horizon)
  {
    hide Decide, MarksLogged, Reindexed;
    var st, full := StateOf(g, op.key), TotalMarks(g.keys) >= limits.maxMarks;
    var (answer, r) := Decide(st, op.scope, op.ts, op.digest, op.mode, op.now.PruneClock(), full, limits.maxPerKey);
    var log' := Logged(log, op, answer);
    DecideSources(st, op, full, limits.maxPerKey);
    if op.key in g.keys {
      KnownEarned(g, log, op.key);
      LogKeeps(log, op, answer, op.key, st.horizon);
    } else {
      NewKeyAccepted(op, limits.maxPerKey);
      assert EventOf(op).value in log';
      assert Earned(log', op.key, I64_MIN);
    }
    MarksInLog(g, log, op.key);
    forall m | m in r.marks ensures Admitted(op.key, m.scope, m.ts, m.digest) in log' {}
    assert Earned(log', op.key, SatSub(r.floor, 1)) by {
      if r.floor != st.floor {
        var m :| m in st.marks && r.floor == SatAdd(m.ts, 1);
        assert Admitted(op.key, m.scope, m.ts, m.digest) in log';
      } else {
        Below(log', op.key, st.horizon, SatSub(st.floor, 1));
      }
    }
    ReindexedEarned(r, log', op.key);
  }

  lemma Below(log: seq<Event>, key: Key, ts: i64, earlier: i64)
    requires Earned(log, key, ts) && earlier <= ts
    ensures Earned(log, key, earlier)
  {
  }

  lemma KnownEarned(g: Guard, log: seq<Event>, key: Key)
    requires Inv(g, log) && AllEarned(g, log) && key in g.keys
    ensures Earned(log, key, g.keys[key].horizon) && SatSub(g.keys[key].floor, 1) <= g.keys[key].horizon
  {
    assert KeyInv(g.keys[key], log, key);
  }

  lemma MarksInLog(g: Guard, log: seq<Event>, key: Key)
    requires Inv(g, log)
    ensures forall m :: m in StateOf(g, key).marks ==> Admitted(key, m.scope, m.ts, m.digest) in log
  {
    if key in g.keys { assert KeyInv(g.keys[key], log, key); }
  }

  lemma RaiseKeyEarned(g: Guard, log: seq<Event>, key: Key, ts: i64)
    requires Inv(g, log) && AllEarned(g, log) && ts >= StateOf(g, key).floor
    ensures Earned(log + [FloorRaised(key, ts)], key, RaiseFloorInto(g, key, ts).0.keys[key].horizon)
  {
    hide MarksLogged, Reindexed;
    var e, st := FloorRaised(key, ts), StateOf(g, key);
    var log', r := log + [e], RaiseFloorOf(st, SatAdd(ts, 1));
    assert e in log';
    MarksInLog(g, log, key);
    if key in g.keys {
      KnownEarned(g, log, key);
      EarnedStays(log, e, key, st.horizon);
      if r.floor == st.floor { Below(log', key, st.horizon, SatSub(st.floor, 1)); }
    }
    assert Earned(log', key, SatSub(r.floor, 1));
    ReindexedEarned(r, log', key);
  }

  lemma PrunedEarned(g: Guard, log: seq<Event>, now: Now)
    requires AllEarned(g, log)
    ensures AllEarned(Pruned(g, now), log)
  {
  }

  lemma ApplyEarned(g: Guard, limits: Limits, log: seq<Event>, op: Op)
    requires limits.maxPerKey >= 1 && Inv(g, log) && AllEarned(g, log)
    ensures var (g', answer) := Apply(g, limits, op); AllEarned(g', Logged(log, op, answer))
  {
    hide Inv, Pruned, Decide, Reindexed, Earned, Sum, RaiseFloorOf;
    var (g', answer) := Apply(g, limits, op);
    var p := Pruned(g, op.now);
    PrunedInv(g, log, op.now);
    PrunedEarned(g, log, op.now);
    if op.Admit? {
      if op.key in p.keys || TotalMarks(p.keys) < limits.maxMarks { AdmitKeyEarned(p, limits, log, op); }
    } else if op.RaiseFloor? {
      if op.ts >= StateOf(p, op.key).floor { RaiseKeyEarned(p, log, op.key, op.ts); }
    }
    forall k | k in g'.keys ensures Earned(Logged(log, op, answer), k, g'.keys[k].horizon) {
      if k in g.keys && g'.keys[k] == g.keys[k] { LogKeeps(log, op, answer, k, g.keys[k].horizon); }
      else if k in p.keys && g'.keys[k] == p.keys[k] { LogKeeps(log, op, answer, k, p.keys[k].horizon); }
    }
  }

  lemma {:induction false} RunEarned(limits: Limits, ops: seq<Op>)
    requires limits.maxPerKey >= 1
    ensures AllEarned(After(limits, ops), LogAfter(limits, ops))
  {
    if ops != [] {
      hide Apply, Inv, AllEarned;
      RunEarned(limits, ops[..|ops| - 1]);
      RunInv(limits, ops[..|ops| - 1]);
      ApplyEarned(After(limits, ops[..|ops| - 1]), limits, LogAfter(limits, ops[..|ops| - 1]), ops[|ops| - 1]);
    }
  }

  /** The keys something was accepted from that is no more than five minutes behind both clocks. */
  ghost function RecentKeys(log: seq<Event>, now: Now): set<Key> {
    set e | e in log && (e.ts >= now.wall - 300 || e.ts >= now.lapse - 300) :: e.key
  }

  /** In every run a key is live only while something accepted from it is, so as long as fewer keys
      than the limit have anything recent, and the marks held are below theirs, no one is turned
      away for want of room. */
  lemma IdleKeysMakeRoom(limits: Limits, ops: seq<Op>, j: nat)
    requires limits.maxPerKey >= 1 && j < |ops| && (ops[j].Admit? || ops[j].RaiseFloor?)
    requires |RecentKeys(LogAfter(limits, ops[..j]), ops[j].now)| < limits.maxKeys
    requires TotalMarks(LiveKeys(After(limits, ops[..j]), ops[j].now)) < limits.maxMarks
    ensures AnswerTo(limits, ops, j) != Full
  {
    hide Apply, LogAfter, Sum;
    var g, log, now := After(limits, ops[..j]), LogAfter(limits, ops[..j]), ops[j].now;
    RunEarned(limits, ops[..j]);
    forall k | k in LiveKeys(g, now).Keys ensures k in RecentKeys(log, now) {
      var e :| e in log && e.key == k && g.keys[k].horizon <= e.ts;
    }
    SubsetSize(LiveKeys(g, now).Keys, RecentKeys(log, now));
    assert |LiveKeys(g, now)| == |LiveKeys(g, now).Keys|;
    FullIff(g, limits, ops[j]);
  }
}
