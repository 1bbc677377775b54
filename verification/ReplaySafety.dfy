/**
 What the replay guard promises over every run: forgetting never reopens a
 replay, whatever the wall and monotonic clocks do.
 */
module ReplaySafety {
  import opened Options
  import opened Int64
  import opened MapSum
  import opened ReplaySpec
  import opened Seqs

  // ---------------------------------------------------------------- invariant

  ghost predicate KeyOk(st: KeyState) {
    && SatSub(st.floor, 1) <= st.horizon
    && (forall m :: m in st.marks ==> st.floor <= m.ts <= st.horizon)
    && (forall m, n :: m in st.marks && n in st.marks && m.scope == n.scope ==> m.ts == n.ts)
  }

  /** The key's state alone refuses every request the accepted one rules out. */
  ghost predicate KeyCovers(st: KeyState, scope: Scope, ts: i64, digest: Digest) {
    || ts < st.floor
    || (exists m :: m in st.marks && m.scope == scope && ts < m.ts)
    || Mark(scope, ts, digest) in st.marks
  }

  ghost predicate Covers(g: Guard, e: Event) {
    || e.ts <= g.dropped
    || (e.key in g.keys &&
        match e
        case Admitted(key, scope, ts, digest) => KeyCovers(g.keys[key], scope, ts, digest)
        case FloorRaised(key, ts) => SatAdd(ts, 1) <= g.keys[key].floor)
  }

  /** Marks are accepted requests, and a scope's latest mark is its last accepted request. */
  ghost predicate MarksLogged(marks: seq<Mark>, log: seq<Event>, key: Key) {
    && (forall m :: m in marks ==> Admitted(key, m.scope, m.ts, m.digest) in log)
    && (forall s :: LatestOf(s, marks).Some? ==> LastAdmitted(log, key, s) == LatestOf(s, marks))
  }

  ghost predicate KeyInv(st: KeyState, log: seq<Event>, key: Key) {
    KeyOk(st) && MarksLogged(st.marks, log, key)
  }

  ghost predicate Inv(g: Guard, log: seq<Event>) {
    && (forall k :: k in g.keys ==> KeyInv(g.keys[k], log, k))
    && (forall e :: e in log ==> Covers(g, e))
  }

  // ---------------------------------------------------------------- filtering marks

  lemma LatestSnoc(marks: seq<Mark>, m: Mark, s: Scope)
    ensures LatestOf(s, marks + [m]) == if m.scope == s then Some(m) else LatestOf(s, marks)
  {
    assert (marks + [m])[..|marks|] == marks;
  }

  /** Dropping whole scopes keeps the latest mark of each scope that stays. */
  lemma {:induction false} FilterLatest(p: Mark -> bool, marks: seq<Mark>, s: Scope, keep: bool)
    requires forall m :: m in marks && m.scope == s ==> p(m) == keep
    ensures LatestOf(s, Filter(p, marks)) == if keep then LatestOf(s, marks) else None
  {
    if marks != [] {
      var init, last := marks[..|marks| - 1], marks[|marks| - 1];
      FilterLatest(p, init, s, keep);
      if p(last) { LatestSnoc(Filter(p, init), last, s); }
    }
  }

  lemma FilterMarksLogged(p: Mark -> bool, marks: seq<Mark>, log: seq<Event>, key: Key)
    requires MarksLogged(marks, log, key)
    requires forall m, n :: m in marks && n in marks && m.scope == n.scope ==> p(m) == p(n)
    ensures MarksLogged(Filter(p, marks), log, key)
  {
    forall s | LatestOf(s, Filter(p, marks)).Some?
      ensures LastAdmitted(log, key, s) == LatestOf(s, Filter(p, marks))
    {
      var m := LatestOf(s, Filter(p, marks)).value;
      assert m in marks && p(m);
      FilterLatest(p, marks, s, true);
    }
  }

  // ---------------------------------------------------------------- the log grows

  lemma LastAdmittedSnoc(log: seq<Event>, e: Event, key: Key, s: Scope)
    ensures LastAdmitted(log + [e], key, s) ==
            if e.Admitted? && e.key == key && e.scope == s then Some(Mark(s, e.ts, e.digest))
            else LastAdmitted(log, key, s)
  {
    assert (log + [e])[..|log|] == log;
  }

  /** Accepting something for another key, or a floor, leaves a key's marks in step with the log. */
  lemma OtherLogged(marks: seq<Mark>, log: seq<Event>, key: Key, e: Event)
    requires MarksLogged(marks, log, key)
    requires e.FloorRaised? || e.key != key
    ensures MarksLogged(marks, log + [e], key)
  {
    forall s | LatestOf(s, marks).Some?
      ensures LastAdmitted(log + [e], key, s) == LatestOf(s, marks)
    {
      LastAdmittedSnoc(log, e, key, s);
    }
  }

  lemma PushLogged(marks: seq<Mark>, log: seq<Event>, key: Key, m: Mark)
    requires MarksLogged(marks, log, key)
    ensures MarksLogged(marks + [m], log + [Admitted(key, m.scope, m.ts, m.digest)], key)
  {
    var e := Admitted(key, m.scope, m.ts, m.digest);
    assert (marks + [m])[..|marks|] == marks;
    forall s | LatestOf(s, marks + [m]).Some?
      ensures LastAdmitted(log + [e], key, s) == LatestOf(s, marks + [m])
    {
      LastAdmittedSnoc(log, e, key, s);
    }
  }

  // ---------------------------------------------------------------- deciding one request

  /** `marks` are at or above `floor`, one timestamp per scope, and in step with the log. */
  ghost predicate MarksOk(floor: i64, marks: seq<Mark>, log: seq<Event>, key: Key) {
    && (forall m :: m in marks ==> floor <= m.ts)
    && (forall m, n :: m in marks && n in marks && m.scope == n.scope ==> m.ts == n.ts)
    && MarksLogged(marks, log, key)
  }

  lemma FilterMarksOk(p: Mark -> bool, floor: i64, marks: seq<Mark>, log: seq<Event>, key: Key)
    requires MarksOk(floor, marks, log, key)
    requires forall m, n :: m in marks && n in marks && m.scope == n.scope ==> p(m) == p(n)
    ensures MarksOk(floor, Filter(p, marks), log, key)
  {
    FilterMarksLogged(p, marks, log, key);
  }

  lemma PushMarksOk(floor: i64, marks: seq<Mark>, log: seq<Event>, key: Key, m: Mark)
    requires MarksOk(floor, marks, log, key)
    requires floor <= m.ts
    requires forall n :: n in marks && n.scope == m.scope ==> n.ts == m.ts
    ensures MarksOk(floor, marks + [m], log + [Admitted(key, m.scope, m.ts, m.digest)], key)
  {
    PushLogged(marks, log, key, m);
  }

  lemma RaiseFloorMarksOk(st: KeyState, newFloor: i64, log: seq<Event>, key: Key)
    requires MarksOk(st.floor, st.marks, log, key)
    ensures var r := RaiseFloorOf(st, newFloor); MarksOk(r.floor, r.marks, log, key)
  {
    FilterMarksOk(AtLeast(Max(st.floor, newFloor)), st.floor, st.marks, log, key);
  }

  /** Raising a floor only trades marks for a floor that refuses at least as much. */
  lemma RaiseFloorCovers(st: KeyState, newFloor: i64, s: Scope, t: i64, d: Digest)
    requires KeyCovers(st, s, t, d)
    ensures KeyCovers(RaiseFloorOf(st, newFloor), s, t, d)
  {
    var r := RaiseFloorOf(st, newFloor);
    if m :| m in st.marks && m.scope == s && t < m.ts {
      assert m in r.marks || m.ts < r.floor;
    } else if Mark(s, t, d) in st.marks {
      assert Mark(s, t, d) in r.marks || t < r.floor;
    }
  }

  /** Once a request is not refused, the marks of its scope that stay are at its own timestamp. */
  lemma SupersedingScope(st: KeyState, live: seq<Mark>, scope: Scope, ts: i64, digest: Digest, mode: Mode)
    requires Refusal(st.floor, live, scope, ts, digest, mode).None?
    requires forall m, n :: m in live && n in live && m.scope == n.scope ==> m.ts == n.ts
    ensures forall m :: m in Superseding(scope, ts, live) && m.scope == scope ==> m.ts == ts && m.digest != digest
    ensures forall m :: m in live && m !in Superseding(scope, ts, live) ==> m.scope == scope && m.ts < ts
  {
    var mine := Filter(OfScope(scope), live);
    forall m | m in Superseding(scope, ts, live) && m.scope == scope
      ensures m.ts == ts && m.digest != digest
    {
      assert m in mine;
      var i :| 0 <= i < |live| && live[i] == m;
    }
    forall m | m in live && m !in Superseding(scope, ts, live)
      ensures m.scope == scope && m.ts < ts
    {
      assert m.scope == scope;
      assert m in mine;
    }
  }

  lemma SupersedingMarksOk(st: KeyState, live: seq<Mark>, scope: Scope, ts: i64, log: seq<Event>, key: Key)
    requires MarksOk(st.floor, live, log, key)
    ensures MarksOk(st.floor, Superseding(scope, ts, live), log, key)
  {
    FilterMarksOk(NotOfScope(scope), st.floor, live, log, key);
  }

  lemma PlaceMarksOk(st: KeyState, mark: Mark, full: bool, maxPerKey: nat, log: seq<Event>, key: Key)
    requires maxPerKey >= 1
    requires MarksOk(st.floor, st.marks, log, key)
    requires st.floor <= mark.ts
    requires forall m :: m in st.marks && m.scope == mark.scope ==> m.ts == mark.ts
    ensures var (answer, r) := Place(st, mark, full, maxPerKey);
            && r.horizon == st.horizon && st.floor <= r.floor
            && MarksOk(r.floor, r.marks, LogIf(answer, log, key, mark), key)
  {
    if |st.marks| >= maxPerKey || (full && st.marks != []) {
      var oldest := SatAdd(OldestTs(st.marks).value, 1);
      var raised := RaiseFloorOf(st, oldest);
      RaiseFloorMarksOk(st, oldest, log, key);
      if mark.ts >= raised.floor { PushMarksOk(raised.floor, raised.marks, log, key, mark); }
    } else if !full {
      PushMarksOk(st.floor, st.marks, log, key, mark);
    }
  }

  function LogIf(answer: Admission, log: seq<Event>, key: Key, mark: Mark): seq<Event> {
    if answer == Accepted then log + [Admitted(key, mark.scope, mark.ts, mark.digest)] else log
  }

  /** Whatever the answer, the key's marks stay in order. */
  lemma DecideMarksOk(st: KeyState, scope: Scope, ts: i64, digest: Digest, mode: Mode,
                      clock: i64, poolFull: bool, maxPerKey: nat, log: seq<Event>, key: Key)
    requires maxPerKey >= 1
    requires MarksOk(st.floor, st.marks, log, key)
    ensures var (answer, r) := Decide(st, scope, ts, digest, mode, clock, poolFull, maxPerKey);
            && r.horizon == st.horizon && st.floor <= r.floor
            && MarksOk(r.floor, r.marks, LogIf(answer, log, key, Mark(scope, ts, digest)), key)
  {
    hide Place, Superseding, Filter, MarksLogged;
    var live := Filter(Unlapsed(clock), st.marks);
    FilterMarksOk(Unlapsed(clock), st.floor, st.marks, log, key);
    if Refusal(st.floor, live, scope, ts, digest, mode).None? {
      var kept := Superseding(scope, ts, live);
      SupersedingMarksOk(st, live, scope, ts, log, key);
      SupersedingScope(st, live, scope, ts, digest, mode);
      PlaceMarksOk(st.(marks := kept), Mark(scope, ts, digest), poolFull && |kept| == |st.marks|,
                   maxPerKey, log, key);
    }
  }

  lemma PlaceCovers(st: KeyState, mark: Mark, full: bool, maxPerKey: nat, s: Scope, t: i64, d: Digest)
    requires maxPerKey >= 1
    requires KeyCovers(st, s, t, d) || (s == mark.scope && t < mark.ts)
    requires full ==> KeyCovers(st, s, t, d)
    ensures KeyCovers(Place(st, mark, full, maxPerKey).1, s, t, d)
  {
    if |st.marks| >= maxPerKey || (full && st.marks != []) {
      RaisedCovers(st, SatAdd(OldestTs(st.marks).value, 1), mark.scope, mark.ts, mark.digest, s, t, d);
    } else if !full {
      PushCovers(st, mark.scope, mark.ts, mark.digest, s, t, d);
    }
  }

  /** A request a key's state covers stays covered, or was at a lapsed mark or below it. */
  lemma DecideCovers(st: KeyState, scope: Scope, ts: i64, digest: Digest, mode: Mode,
                     clock: i64, poolFull: bool, maxPerKey: nat, s: Scope, t: i64, d: Digest)
    requires maxPerKey >= 1
    requires forall m, n :: m in st.marks && n in st.marks && m.scope == n.scope ==> m.ts == n.ts
    requires KeyCovers(st, s, t, d)
    ensures || KeyCovers(Decide(st, scope, ts, digest, mode, clock, poolFull, maxPerKey).1, s, t, d)
            || exists m :: m in Filter(Lapsed(clock), st.marks) && t <= m.ts
  {
    var live := Filter(Unlapsed(clock), st.marks);
    if !exists m :: m in Filter(Lapsed(clock), st.marks) && t <= m.ts {
      LiveCovers(st, clock, s, t, d);
      if Refusal(st.floor, live, scope, ts, digest, mode).None? {
        var kept := Superseding(scope, ts, live);
        KeptCovers(st, live, scope, ts, digest, mode, s, t, d);
        if |kept| == |st.marks| { KeptAll(st, clock, scope, ts); }
        PlaceCovers(st.(marks := kept), Mark(scope, ts, digest), poolFull && |kept| == |st.marks|,
                    maxPerKey, s, t, d);
      }
    }
  }

  /** What a newer request replaces is older than it. */
  lemma KeptCovers(st: KeyState, live: seq<Mark>, scope: Scope, ts: i64, digest: Digest, mode: Mode,
                   s: Scope, t: i64, d: Digest)
    requires Refusal(st.floor, live, scope, ts, digest, mode).None?
    requires forall m, n :: m in live && n in live && m.scope == n.scope ==> m.ts == n.ts
    requires KeyCovers(st.(marks := live), s, t, d)
    ensures || KeyCovers(st.(marks := Superseding(scope, ts, live)), s, t, d)
            || (s == scope && t < ts)
  {
    SupersedingScope(st, live, scope, ts, digest, mode);
    if m :| m in live && m.scope == s && t < m.ts {
      assert m in Superseding(scope, ts, live) || m.ts < ts;
    }
  }

  /** If nothing was released, nothing was dropped. */
  lemma KeptAll(st: KeyState, clock: i64, scope: Scope, ts: i64)
    requires |Superseding(scope, ts, Filter(Unlapsed(clock), st.marks))| == |st.marks|
    ensures Superseding(scope, ts, Filter(Unlapsed(clock), st.marks)) == st.marks
  {
    var live := Filter(Unlapsed(clock), st.marks);
    if Superseding(scope, ts, live) != live { FilterAll(NotOfScope(scope), live); }
    FilterAll(Unlapsed(clock), st.marks);
  }

  lemma LiveCovers(st: KeyState, clock: i64, s: Scope, t: i64, d: Digest)
    requires KeyCovers(st, s, t, d)
    requires !exists m :: m in Filter(Lapsed(clock), st.marks) && t <= m.ts
    ensures KeyCovers(st.(marks := Filter(Unlapsed(clock), st.marks)), s, t, d)
  {
    forall m | m in st.marks && t <= m.ts
      ensures m in Filter(Unlapsed(clock), st.marks)
    {
      if LapsedAt(m.ts, clock) { assert m in Filter(Lapsed(clock), st.marks); }
    }
  }

  lemma PushCovers(st: KeyState, scope: Scope, ts: i64, digest: Digest, s: Scope, t: i64, d: Digest)
    requires KeyCovers(st, s, t, d) || (s == scope && t < ts)
    ensures KeyCovers(st.(marks := st.marks + [Mark(scope, ts, digest)]), s, t, d)
  {
    assert forall m :: m in st.marks ==> m in st.marks + [Mark(scope, ts, digest)];
    assert Mark(scope, ts, digest) in st.marks + [Mark(scope, ts, digest)];
  }

  lemma RaisedCovers(st: KeyState, newFloor: i64, scope: Scope, ts: i64, digest: Digest, s: Scope, t: i64, d: Digest)
    requires KeyCovers(st, s, t, d) || (s == scope && t < ts)
    ensures var raised := RaiseFloorOf(st, newFloor);
            if ts < raised.floor then KeyCovers(raised, s, t, d)
            else KeyCovers(raised.(marks := raised.marks + [Mark(scope, ts, digest)]), s, t, d)
  {
    var raised := RaiseFloorOf(st, newFloor);
    if KeyCovers(st, s, t, d) { RaiseFloorCovers(st, newFloor, s, t, d); }
    if ts >= raised.floor { PushCovers(raised, scope, ts, digest, s, t, d); }
  }

  // ---------------------------------------------------------------- every step keeps the invariant

  /** A forgotten key's horizon bounds everything it refused, and the watermark takes it over. */
  lemma PrunedInv(g: Guard, log: seq<Event>, now: Now)
    requires Inv(g, log)
    ensures Inv(Pruned(g, now), log)
  {
    var p := Pruned(g, now);
    forall e | e in log
      ensures Covers(p, e)
    {
      assert Covers(g, e);
      if e.ts > g.dropped && e.key !in p.keys {
        var st := g.keys[e.key];
        assert LapsedAt(st.horizon, now.PruneClock());
        assert e.ts <= st.horizon;
      }
    }
  }

  lemma DecideFloor(st: KeyState, scope: Scope, ts: i64, digest: Digest, mode: Mode,
                    clock: i64, poolFull: bool, maxPerKey: nat)
    requires maxPerKey >= 1
    ensures st.floor <= Decide(st, scope, ts, digest, mode, clock, poolFull, maxPerKey).1.floor
  {
  }

  lemma LapsedAreDropped(st: KeyState, clock: i64, base: i64)
    ensures base <= DroppedMarks(st, clock, base)
    ensures forall m :: m in Filter(Lapsed(clock), st.marks) ==> m.ts <= DroppedMarks(st, clock, base)
  {
  }

  /** `g'` is `g` with one key's state replaced by one that covers as much. */
  lemma ReplacedCovers(g: Guard, g': Guard, key: Key, e: Event)
    requires Covers(g, e)
    requires g.dropped <= g'.dropped
    requires key in g'.keys && g'.keys == g.keys[key := g'.keys[key]]
    requires e.FloorRaised? && key in g.keys ==> g.keys[key].floor <= g'.keys[key].floor
    requires e.Admitted? && key in g.keys && KeyCovers(g.keys[key], e.scope, e.ts, e.digest) ==>
               e.ts <= g'.dropped || KeyCovers(g'.keys[key], e.scope, e.ts, e.digest)
    ensures Covers(g', e)
  {
  }

  /** Every event accepted so far is still covered. */
  lemma AdmitCovers(g: Guard, limits: Limits, op: Op, e: Event)
    requires limits.maxPerKey >= 1 && op.Admit?
    requires forall k :: k in g.keys ==> KeyOk(g.keys[k])
    requires Covers(g, e)
    ensures Covers(AdmitInto(g, limits, op).0, e)
  {
    hide Decide, DroppedMarks, Filter;
    var st, clock := StateOf(g, op.key), op.now.PruneClock();
    var poolFull := TotalMarks(g.keys) >= limits.maxMarks;
    DecideFloor(st, op.scope, op.ts, op.digest, op.mode, clock, poolFull, limits.maxPerKey);
    LapsedAreDropped(st, clock, g.dropped);
    if e.Admitted? && op.key in g.keys && KeyCovers(st, e.scope, e.ts, e.digest) {
      DecideCovers(st, op.scope, op.ts, op.digest, op.mode, clock, poolFull, limits.maxPerKey, e.scope, e.ts, e.digest);
    }
    ReplacedCovers(g, AdmitInto(g, limits, op).0, op.key, e);
  }

  lemma StateMarksOk(g: Guard, log: seq<Event>, key: Key)
    requires Inv(g, log)
    ensures MarksOk(StateOf(g, key).floor, StateOf(g, key).marks, log, key)
  {
    if key in g.keys { assert KeyInv(g.keys[key], log, key); }
  }

  lemma ReindexedInv(st: KeyState, log: seq<Event>, key: Key)
    requires MarksOk(st.floor, st.marks, log, key)
    ensures KeyInv(Reindexed(st), log, key)
  {
    hide MarksLogged, NewestTs;
  }

  lemma OtherKeyInv(st: KeyState, log: seq<Event>, key: Key, e: Event)
    requires KeyInv(st, log, key)
    requires e.FloorRaised? || e.key != key
    ensures KeyInv(st, log + [e], key)
  {
    OtherLogged(st.marks, log, key, e);
  }

  lemma AdmitKeys(g: Guard, limits: Limits, log: seq<Event>, op: Op)
    requires limits.maxPerKey >= 1 && op.Admit?
    requires Inv(g, log)
    ensures var (g', answer) := AdmitInto(g, limits, op);
            forall k :: k in g'.keys ==> KeyInv(g'.keys[k], Logged(log, op, answer), k)
  {
    hide Decide, MarksOk, KeyInv, Reindexed;
    var st := StateOf(g, op.key);
    var poolFull := TotalMarks(g.keys) >= limits.maxMarks;
    StateMarksOk(g, log, op.key);
    DecideMarksOk(st, op.scope, op.ts, op.digest, op.mode, op.now.PruneClock(), poolFull, limits.maxPerKey, log,
                  op.key);
    var (answer, r) := Decide(st, op.scope, op.ts, op.digest, op.mode, op.now.PruneClock(), poolFull, limits.maxPerKey);
    ReindexedInv(r, Logged(log, op, answer), op.key);
    forall k | k in g.keys && k != op.key
      ensures KeyInv(g.keys[k], Logged(log, op, answer), k)
    {
      if answer == Accepted { OtherKeyInv(g.keys[k], log, k, EventOf(op).value); }
    }
  }

  /** An accepted request is itself among the marks. */
  lemma DecideRecords(st: KeyState, scope: Scope, ts: i64, digest: Digest, mode: Mode,
                      clock: i64, poolFull: bool, maxPerKey: nat)
    requires maxPerKey >= 1
    ensures var (answer, r) := Decide(st, scope, ts, digest, mode, clock, poolFull, maxPerKey);
            answer == Accepted ==> Mark(scope, ts, digest) in r.marks
  {
    hide Superseding, Filter, OldestTs;
  }

  lemma AdmitRecords(g: Guard, limits: Limits, op: Op)
    requires limits.maxPerKey >= 1 && op.Admit?
    requires AdmitInto(g, limits, op).1 == Accepted
    ensures Covers(AdmitInto(g, limits, op).0, EventOf(op).value)
  {
    DecideRecords(StateOf(g, op.key), op.scope, op.ts, op.digest, op.mode, op.now.PruneClock(),
                  TotalMarks(g.keys) >= limits.maxMarks, limits.maxPerKey);
  }

  lemma AdmitInv(g: Guard, limits: Limits, log: seq<Event>, op: Op)
    requires limits.maxPerKey >= 1 && op.Admit?
    requires Inv(g, log)
    ensures var (g', answer) := AdmitInto(g, limits, op); Inv(g', Logged(log, op, answer))
  {
    hide AdmitInto, MarksLogged, Covers;
    var next := AdmitInto(g, limits, op);
    AdmitKeys(g, limits, log, op);
    forall e | e in Logged(log, op, next.1)
      ensures Covers(next.0, e)
    {
      if e in log { AdmitCovers(g, limits, op, e); } else { AdmitRecords(g, limits, op); }
    }
  }

  lemma RaiseFloorKeys(g: Guard, log: seq<Event>, key: Key, ts: i64)
    requires Inv(g, log) && ts >= StateOf(g, key).floor
    ensures var g' := RaiseFloorInto(g, key, ts).0;
            forall k :: k in g'.keys ==> KeyInv(g'.keys[k], log + [FloorRaised(key, ts)], k)
  {
    hide Covers, MarksOk, KeyInv, Reindexed, RaiseFloorOf;
    var e, st := FloorRaised(key, ts), StateOf(g, key);
    StateMarksOk(g, log, key);
    RaiseFloorMarksOk(st, SatAdd(ts, 1), log, key);
    var r := Reindexed(RaiseFloorOf(st, SatAdd(ts, 1)));
    ReindexedInv(RaiseFloorOf(st, SatAdd(ts, 1)), log, key);
    OtherKeyInv(r, log, key, e);
    forall k | k in g.keys && k != key ensures KeyInv(g.keys[k], log + [e], k) { OtherKeyInv(g.keys[k], log, k, e); }
  }

  lemma RaiseFloorCoversAll(g: Guard, log: seq<Event>, key: Key, ts: i64)
    requires Inv(g, log) && ts >= StateOf(g, key).floor
    ensures var g' := RaiseFloorInto(g, key, ts).0;
            forall e :: e in log + [FloorRaised(key, ts)] ==> Covers(g', e)
  {
    hide KeyInv;
    var g', st := RaiseFloorInto(g, key, ts).0, StateOf(g, key);
    forall e | e in log + [FloorRaised(key, ts)]
      ensures Covers(g', e)
    {
      if e in log && e.Admitted? && e.key == key && e.key in g.keys && KeyCovers(st, e.scope, e.ts, e.digest) {
        RaiseFloorCovers(st, SatAdd(ts, 1), e.scope, e.ts, e.digest);
      }
    }
  }

  lemma RaiseFloorInv(g: Guard, log: seq<Event>, key: Key, ts: i64, now: Now)
    requires Inv(g, log)
    ensures var (g', answer) := RaiseFloorInto(g, key, ts);
            Inv(g', Logged(log, RaiseFloor(key, ts, now), answer))
  {
    hide KeyInv, Covers;
    if ts >= StateOf(g, key).floor {
      RaiseFloorKeys(g, log, key, ts);
      RaiseFloorCoversAll(g, log, key, ts);
    }
  }

  lemma ApplyInv(g: Guard, limits: Limits, log: seq<Event>, op: Op)
    requires limits.maxPerKey >= 1
    requires Inv(g, log)
    ensures var (g', answer) := Apply(g, limits, op); Inv(g', Logged(log, op, answer))
  {
    hide AdmitInto, RaiseFloorInto;
    PrunedInv(g, log, op.now);
    match op {
      case Admit(_, _, _, _, _, _) => AdmitInv(Pruned(g, op.now), limits, log, op);
      case RaiseFloor(key, ts, now) => RaiseFloorInv(Pruned(g, now), log, key, ts, now);
      case _ =>
    }
  }

  /** Every reachable guard still refuses everything its accepted requests rule out. */
  lemma {:induction false} RunInv(limits: Limits, ops: seq<Op>)
    requires limits.maxPerKey >= 1
    ensures Inv(After(limits, ops), LogAfter(limits, ops))
  {
    if ops != [] {
      var init := ops[..|ops| - 1];
      RunInv(limits, init);
      ApplyInv(After(limits, init), limits, LogAfter(limits, init), ops[|ops| - 1]);
    }
  }

  // ---------------------------------------------------------------- what a covered event rules out

  /** Dropping protection never raises the watermark over a fresh request. */
  lemma PrunedKeepsFresh(g: Guard, ts: i64, now: Now)
    requires Fresh(g, ts, now)
    ensures Fresh(Pruned(g, now), ts, now)
  {
  }

  /** A key's state never lets through what it covers. */
  lemma KeyAcceptsNew(st: KeyState, scope: Scope, ts: i64, digest: Digest, mode: Mode, now: Now,
                      poolFull: bool, maxPerKey: nat, t: i64, d: Digest)
    requires maxPerKey >= 1
    requires FreshAt(ts, now.wall)
    requires KeyCovers(st, scope, t, d)
    requires Decide(st, scope, ts, digest, mode, now.PruneClock(), poolFull, maxPerKey).0 == Accepted
    ensures ts > t || (ts == t && digest != d)
  {
    var live := Filter(Unlapsed(now.PruneClock()), st.marks);
    var mine := Filter(OfScope(scope), live);
    assert Refusal(st.floor, live, scope, ts, digest, mode).None?;
    forall m | m in st.marks && m.scope == scope && !LapsedAt(m.ts, now.PruneClock())
      ensures m.ts <= ts && (m.ts == ts ==> m.digest != digest)
    {
      assert m in live && m in mine;
      var i :| 0 <= i < |live| && live[i] == m;
    }
  }

  /** The guard never accepts a request an accepted event rules out. */
  lemma AcceptedIsNew(g: Guard, limits: Limits, log: seq<Event>, op: Op, e: Event)
    requires limits.maxPerKey >= 1
    requires Inv(g, log) && e in log
    requires (op.Admit? || op.RaiseFloor?) && op.key == e.key
    requires Apply(g, limits, op).1 == Accepted
    ensures e.FloorRaised? ==> op.ts >= SatAdd(e.ts, 1)
    ensures op.Admit? && e.Admitted? && op.scope == e.scope ==>
              op.ts > e.ts || (op.ts == e.ts && op.digest != e.digest)
  {
    var p := Pruned(g, op.now);
    PrunedInv(g, log, op.now);
    PrunedKeepsFresh(g, op.ts, op.now);
    if op.Admit? && e.Admitted? && op.scope == e.scope && e.ts > p.dropped {
      KeyAcceptsNew(StateOf(p, op.key), op.scope, op.ts, op.digest, op.mode, op.now,
                    TotalMarks(p.keys) >= limits.maxMarks, limits.maxPerKey, e.ts, e.digest);
    }
  }

  // ---------------------------------------------------------------- every run

  lemma {:induction false} AcceptedIsLogged(limits: Limits, ops: seq<Op>, i: nat)
    requires limits.maxPerKey >= 1
    requires i < |ops| && EventOf(ops[i]).Some? && AnswerTo(limits, ops, i) == Accepted
    ensures EventOf(ops[i]).value in LogAfter(limits, ops)
    decreases |ops|
  {
    var init := ops[..|ops| - 1];
    if i < |init| {
      assert init[..i] == ops[..i];
      AcceptedIsLogged(limits, init, i);
    } else {
      assert ops[..i] == init;
    }
  }

  /** In every run, under any clocks: a request is accepted at most once, and the
      timestamps accepted in one key's scope never go back. */
  lemma AcceptedOnceInOrder(limits: Limits, ops: seq<Op>, i: nat, j: nat)
    requires limits.maxPerKey >= 1
    requires i < j < |ops| && ops[i].Admit? && ops[j].Admit?
    requires ops[i].key == ops[j].key && ops[i].scope == ops[j].scope
    requires AnswerTo(limits, ops, i) == AnswerTo(limits, ops, j) == Accepted
    ensures ops[i].ts <= ops[j].ts
    ensures ops[i].ts == ops[j].ts ==> ops[i].digest != ops[j].digest
  {
    hide Apply, Inv;
    var before := ops[..j];
    assert before[..i] == ops[..i];
    RunInv(limits, before);
    AcceptedIsLogged(limits, before, i);
    AcceptedIsNew(After(limits, before), limits, LogAfter(limits, before), ops[j], EventOf(ops[i]).value);
  }

  /** In every run, once a floor is raised at a timestamp nothing of that key at or
      below it is accepted again; only the last representable second, whose floor saturates,
      can be accepted any number of times. */
  lemma FloorHolds(limits: Limits, ops: seq<Op>, i: nat, j: nat)
    requires limits.maxPerKey >= 1
    requires i < j < |ops| && ops[i].RaiseFloor? && (ops[j].Admit? || ops[j].RaiseFloor?)
    requires ops[i].key == ops[j].key
    requires AnswerTo(limits, ops, i) == AnswerTo(limits, ops, j) == Accepted
    ensures ops[i].ts < ops[j].ts || ops[i].ts == ops[j].ts == I64_MAX
  {
    hide Apply, Inv;
    var before := ops[..j];
    assert before[..i] == ops[..i];
    RunInv(limits, before);
    AcceptedIsLogged(limits, before, i);
    AcceptedIsNew(After(limits, before), limits, LogAfter(limits, before), ops[j], EventOf(ops[i]).value);
  }

  /** Sending an accepted floor again at once is refused exactly when its
      timestamp is below the last representable second. */
  lemma FloorRefusesResend(g: Guard, limits: Limits, op: Op)
    requires limits.maxPerKey >= 1 && op.RaiseFloor?
    requires Apply(g, limits, op).1 == Accepted
    ensures Apply(Apply(g, limits, op).0, limits, op).1 != Accepted <==> op.ts < I64_MAX
  {
    var (g', _) := Apply(g, limits, op);
    var p := Pruned(g', op.now);
    PrunedKeepsFresh(g, op.ts, op.now);
    var st := g'.keys[op.key];
    assert op.ts == I64_MAX ==> !LapsedAt(st.horizon, op.now.PruneClock());
    assert st.floor >= SatAdd(op.ts, 1);
    assert !LapsedAt(st.horizon, op.now.PruneClock());
    assert op.key in p.keys;
  }

  /** At that second it is accepted again: the same floor, sent twice to an empty guard. */
  lemma FloorAcceptedTwice(limits: Limits, key: Key)
    requires limits.maxKeys >= 1 && limits.maxMarks >= 1 && limits.maxPerKey >= 1
    ensures var op := RaiseFloor(key, I64_MAX, Now(I64_MAX, I64_MAX));
            AnswerTo(limits, [op, op], 0) == AnswerTo(limits, [op, op], 1) == Accepted
  {
    var op := RaiseFloor(key, I64_MAX, Now(I64_MAX, I64_MAX));
    assert [op, op][..0] == [] && [op, op][..1] == [op] && [op][..0] == [];
    var p := Pruned(EMPTY, op.now);
    assert p.keys == map[] && MarkCounts(p.keys) == map[];
    Empties<Key, nat>();
    assert Apply(EMPTY, limits, op).1 == Accepted;
    FloorRefusesResend(EMPTY, limits, op);
  }

  lemma KeyRepeatsLatest(st: KeyState, scope: Scope, ts: i64, digest: Digest, mode: Mode, clock: i64,
                         poolFull: bool, maxPerKey: nat)
    requires maxPerKey >= 1
    requires forall m, n :: m in st.marks && n in st.marks && m.scope == n.scope ==> m.ts == n.ts
    requires Decide(st, scope, ts, digest, mode, clock, poolFull, maxPerKey).0 == Repeat
    ensures LatestOf(scope, Filter(Unlapsed(clock), st.marks)) == Some(Mark(scope, ts, digest))
  {
    var live := Filter(Unlapsed(clock), st.marks);
    var latest := LatestOf(scope, live);
    assert latest.value in Filter(OfScope(scope), live);
  }

  lemma KeyRepeatIsLast(st: KeyState, log: seq<Event>, op: Op, poolFull: bool, maxPerKey: nat)
    requires maxPerKey >= 1 && op.Admit?
    requires MarksOk(st.floor, st.marks, log, op.key)
    requires Decide(st, op.scope, op.ts, op.digest, op.mode, op.now.PruneClock(), poolFull, maxPerKey).0 == Repeat
    ensures LastAdmitted(log, op.key, op.scope) == Some(Mark(op.scope, op.ts, op.digest))
  {
    hide Decide, LatestOf, Filter, LastAdmitted;
    FilterMarksLogged(Unlapsed(op.now.PruneClock()), st.marks, log, op.key);
    KeyRepeatsLatest(st, op.scope, op.ts, op.digest, op.mode, op.now.PruneClock(), poolFull, maxPerKey);
  }

  /** In every run `Repeat` goes only to the request its scope accepted last. */
  lemma RepeatIsLastAccepted(limits: Limits, ops: seq<Op>, j: nat)
    requires limits.maxPerKey >= 1
    requires j < |ops| && ops[j].Admit?
    requires AnswerTo(limits, ops, j) == Repeat
    ensures LastAdmitted(LogAfter(limits, ops[..j]), ops[j].key, ops[j].scope)
         == Some(Mark(ops[j].scope, ops[j].ts, ops[j].digest))
  {
    hide Decide, Inv, MarksOk, LastAdmitted, Pruned, HasRoom;
    var op := ops[j];
    var g, log := After(limits, ops[..j]), LogAfter(limits, ops[..j]);
    var p := Pruned(g, op.now);
    RunInv(limits, ops[..j]);
    PrunedInv(g, log, op.now);
    StateMarksOk(p, log, op.key);
    KeyRepeatIsLast(StateOf(p, op.key), log, op, TotalMarks(p.keys) >= limits.maxMarks, limits.maxPerKey);
  }
}
