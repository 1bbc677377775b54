/**
 The replay guard as values: which requests each signing key may still make.

 The state here has none of the guard's indexes and counters; `ReplayGuard`
 keeps those and is proved to compute the same steps.
 */
module ReplaySpec {
  import opened Options
  import opened Int64
  import opened MapSum
  import opened Seqs

  /** How far a request's timestamp may be from the server's wall clock. */
  const MAX_TIMESTAMP_SKEW_SECS: i64 := 300

  // Opaque 32-byte keys, 64-bit scopes and 128-bit digests, read as numbers.
  type Key = nat
  type Scope = nat
  type Digest = nat

  datatype Admission = Accepted | Repeat | Replay | Stale | Full

  datatype Mode = OneTime | IdempotentRepeat

  datatype Now = Now(lapse: i64, wall: i64) {
    /** The clock protection is dropped by: never ahead of either clock. */
    function PruneClock(): i64 { Min(lapse, wall) }
  }

  datatype Mark = Mark(scope: Scope, ts: i64, digest: Digest)

  datatype KeyState = KeyState(floor: i64, horizon: i64, marks: seq<Mark>)

  const NEW_KEY := KeyState(I64_MIN, I64_MIN, [])

  datatype Limits = Limits(maxKeys: nat, maxMarks: nat, maxPerKey: nat)

  datatype Guard = Guard(keys: map<Key, KeyState>, dropped: i64)

  const EMPTY := Guard(map[], I64_MIN)

  predicate FreshAt(ts: i64, wall: i64) {
    (if wall >= ts then wall - ts else ts - wall) <= MAX_TIMESTAMP_SKEW_SECS
  }

  predicate LapsedAt(ts: i64, now: i64) {
    ts < SatSub(now, MAX_TIMESTAMP_SKEW_SECS)
  }

  // ---------------------------------------------------------------- marks

  /** The newest timestamp among `marks`. */
  function NewestTs(marks: seq<Mark>): (r: Option<i64>)
    ensures r.None? <==> marks == []
    ensures r.Some? ==> exists m :: m in marks && m.ts == r.value
    ensures forall m :: m in marks ==> r.Some? && m.ts <= r.value
  {
    if marks == [] then None
    else
      var init, last := marks[..|marks| - 1], marks[|marks| - 1];
      assert forall m :: m in marks <==> m in init || m == last;
      var newest := NewestTs(init);
      if newest.None? || newest.value <= last.ts then Some(last.ts) else newest
  }

  /** The oldest timestamp among `marks`. */
  function OldestTs(marks: seq<Mark>): (r: Option<i64>)
    ensures r.None? <==> marks == []
    ensures r.Some? ==> exists m :: m in marks && m.ts == r.value
    ensures forall m :: m in marks ==> r.Some? && r.value <= m.ts
  {
    if marks == [] then None
    else
      var init, last := marks[..|marks| - 1], marks[|marks| - 1];
      assert forall m :: m in marks <==> m in init || m == last;
      var oldest := OldestTs(init);
      if oldest.None? || last.ts <= oldest.value then Some(last.ts) else oldest
  }

  /** The latest mark of `scope` in arrival order. */
  function LatestOf(scope: Scope, marks: seq<Mark>): (r: Option<Mark>)
    ensures r.Some? ==> r.value in marks && r.value.scope == scope
    ensures r.None? ==> forall m :: m in marks ==> m.scope != scope
  {
    if marks == [] then None
    else if marks[|marks| - 1].scope == scope then Some(marks[|marks| - 1])
    else LatestOf(scope, marks[..|marks| - 1])
  }

  function OfScope(scope: Scope): Mark -> bool { (m: Mark) => m.scope == scope }

  function NotOfScope(scope: Scope): Mark -> bool { (m: Mark) => m.scope != scope }

  function Unlapsed(clock: i64): Mark -> bool { (m: Mark) => !LapsedAt(m.ts, clock) }

  function Lapsed(clock: i64): Mark -> bool { (m: Mark) => LapsedAt(m.ts, clock) }

  function AtLeast(floor: i64): Mark -> bool { (m: Mark) => m.ts >= floor }

  // ---------------------------------------------------------------- one key

  function RaiseFloorOf(st: KeyState, newFloor: i64): KeyState {
    var floor := Max(st.floor, newFloor);
    st.(floor := floor, marks := Filter(AtLeast(floor), st.marks))
  }

  function Reindexed(st: KeyState): KeyState {
    var newest := match NewestTs(st.marks) case None => I64_MIN case Some(ts) => ts;
    st.(horizon := Max(Max(st.horizon, newest), SatSub(st.floor, 1)))
  }

  /** The marks left once a newer request of `scope` supersedes that scope's older ones. */
  function Superseding(scope: Scope, ts: i64, live: seq<Mark>): (r: seq<Mark>)
    ensures forall m :: m in r ==> m in live
  {
    match NewestTs(Filter(OfScope(scope), live))
    case Some(newest) => if ts > newest then Filter(NotOfScope(scope), live) else live
    case None => live
  }

  /** Why a request is refused outright, or `None` if only room is in question. */
  function Refusal(floor: i64, live: seq<Mark>, scope: Scope, ts: i64, digest: Digest, mode: Mode): Option<Admission> {
    if ts < floor then Some(Replay)
    else
      match NewestTs(Filter(OfScope(scope), live))
      case None => None
      case Some(newest) =>
        if ts < newest then Some(Replay)
        else if ts > newest then None
        else
          var latest := LatestOf(scope, live);
          if mode == IdempotentRepeat && latest.Some? && latest.value.digest == digest then Some(Repeat)
          else if exists i :: 0 <= i < |live| && live[i].scope == scope && live[i].digest == digest then Some(Replay)
          else None
  }

  /** The answer to `mark` and the state it leaves. At a limit the floor moves past the oldest mark
      on hand, which stands for all that mark ruled out, or there is none and the answer is `Full`. */
  function Place(st: KeyState, mark: Mark, full: bool, maxPerKey: nat): (Admission, KeyState)
    requires maxPerKey >= 1
  {
    if |st.marks| >= maxPerKey || (full && st.marks != []) then
      var raised := RaiseFloorOf(st, SatAdd(OldestTs(st.marks).value, 1));
      if mark.ts < raised.floor then (Replay, raised)
      else (Accepted, raised.(marks := raised.marks + [mark]))
    else if full then (Full, st)
    else (Accepted, st.(marks := st.marks + [mark]))
  }

  /** One request against its own key's state: the answer and the state it leaves. */
  function Decide(st: KeyState, scope: Scope, ts: i64, digest: Digest, mode: Mode,
                  clock: i64, poolFull: bool, maxPerKey: nat): (Admission, KeyState)
    requires maxPerKey >= 1
  {
    var live := Filter(Unlapsed(clock), st.marks);
    match Refusal(st.floor, live, scope, ts, digest, mode)
    case Some(refusal) => (refusal, st.(marks := live))
    case None =>
      var kept := Superseding(scope, ts, live);
      Place(st.(marks := kept), Mark(scope, ts, digest), poolFull && |kept| == |st.marks|, maxPerKey)
  }

  // ---------------------------------------------------------------- the guard

  predicate Fresh(g: Guard, ts: i64, now: Now) {
    FreshAt(ts, now.wall) && ts > g.dropped
  }

  function MarkCounts(keys: map<Key, KeyState>): map<Key, nat> {
    map k | k in keys :: |keys[k].marks|
  }

  ghost function TotalMarks(keys: map<Key, KeyState>): nat {
    Sum(MarkCounts(keys))
  }

  /** The newest horizon among lapsed keys, or `base` if that is newer. */
  ghost function DroppedWith(keys: map<Key, KeyState>, clock: i64, base: i64): (r: i64)
    ensures base <= r
    ensures forall k :: k in keys && LapsedAt(keys[k].horizon, clock) ==> keys[k].horizon <= r
    ensures r == base || exists k :: k in keys && LapsedAt(keys[k].horizon, clock) && keys[k].horizon == r
  {
    if keys == map[] then base
    else
      var k :| k in keys;
      var rest := DroppedWith(keys - {k}, clock, base);
      assert forall j :: j in keys && j != k ==> j in keys - {k};
      if LapsedAt(keys[k].horizon, clock) then Max(keys[k].horizon, rest) else rest
  }

  /** The guard without its lapsed keys; the watermark stands for what they ruled out. */
  ghost function Pruned(g: Guard, now: Now): Guard {
    Guard(map k | k in g.keys && !LapsedAt(g.keys[k].horizon, now.PruneClock()) :: g.keys[k],
          DroppedWith(g.keys, now.PruneClock(), g.dropped))
  }

  ghost predicate HasRoom(g: Guard, key: Key, limits: Limits) {
    key in g.keys || (|g.keys| < limits.maxKeys && TotalMarks(g.keys) < limits.maxMarks)
  }

  function StateOf(g: Guard, key: Key): KeyState {
    if key in g.keys then g.keys[key] else NEW_KEY
  }

  datatype Op =
    | Admit(key: Key, scope: Scope, ts: i64, digest: Digest, mode: Mode, now: Now)
    | RaiseFloor(key: Key, ts: i64, now: Now)
    | CheckFloor(key: Key, ts: i64, now: Now)
    | Prune(now: Now)

  function DroppedMarks(st: KeyState, clock: i64, base: i64): i64 {
    match NewestTs(Filter(Lapsed(clock), st.marks)) case None => base case Some(ts) => Max(base, ts)
  }

  /** A fresh request against a pruned guard that has room for its key. */
  ghost function AdmitInto(g: Guard, limits: Limits, op: Op): (Guard, Admission)
    requires op.Admit? && limits.maxPerKey >= 1
  {
    var st := StateOf(g, op.key);
    var clock := op.now.PruneClock();
    var (answer, st') := Decide(st, op.scope, op.ts, op.digest, op.mode, clock,
                                TotalMarks(g.keys) >= limits.maxMarks, limits.maxPerKey);
    (Guard(g.keys[op.key := Reindexed(st')], DroppedMarks(st, clock, g.dropped)), answer)
  }

  ghost function AdmitStep(g0: Guard, limits: Limits, op: Op): (Guard, Admission)
    requires op.Admit? && limits.maxPerKey >= 1
  {
    if !Fresh(g0, op.ts, op.now) then (g0, Stale)
    else
      var g := Pruned(g0, op.now);
      if !HasRoom(g, op.key, limits) then (g, Full) else AdmitInto(g, limits, op)
  }

  function RaiseFloorInto(g: Guard, key: Key, ts: i64): (Guard, Admission) {
    var st := StateOf(g, key);
    if ts < st.floor then (g, Replay)
    else (g.(keys := g.keys[key := Reindexed(RaiseFloorOf(st, SatAdd(ts, 1)))]), Accepted)
  }

  ghost function RaiseFloorStep(g0: Guard, limits: Limits, op: Op): (Guard, Admission)
    requires op.RaiseFloor?
  {
    if !Fresh(g0, op.ts, op.now) then (g0, Stale)
    else
      var g := Pruned(g0, op.now);
      if !HasRoom(g, op.key, limits) then (g, Full) else RaiseFloorInto(g, op.key, op.ts)
  }

  function CheckFloorAnswer(g: Guard, key: Key, ts: i64, now: Now): Admission {
    if !FreshAt(ts, now.wall) then Stale
    else if key in g.keys && ts < g.keys[key].floor then Replay
    else Accepted
  }

  /** One operation. `Prune` gives no answer; `Accepted` stands in for it. */
  ghost function Apply(g: Guard, limits: Limits, op: Op): (Guard, Admission)
    requires limits.maxPerKey >= 1
  {
    match op
    case Admit(_, _, _, _, _, _) => AdmitStep(g, limits, op)
    case RaiseFloor(_, _, _) => RaiseFloorStep(g, limits, op)
    case CheckFloor(key, ts, now) => (g, CheckFloorAnswer(g, key, ts, now))
    case Prune(now) => (Pruned(g, now), Accepted)
  }

  /** The guard after `ops`, from empty. */
  ghost function After(limits: Limits, ops: seq<Op>): Guard
    requires limits.maxPerKey >= 1
  {
    if ops == [] then EMPTY
    else Apply(After(limits, ops[..|ops| - 1]), limits, ops[|ops| - 1]).0
  }

  /** What the guard answers to the `i`th of `ops`. */
  ghost function AnswerTo(limits: Limits, ops: seq<Op>, i: nat): Admission
    requires limits.maxPerKey >= 1
    requires i < |ops|
  {
    Apply(After(limits, ops[..i]), limits, ops[i]).1
  }

  // ---------------------------------------------------------------- the log

  /** What was accepted, in order: the unbounded record the guard stands in for. */
  datatype Event =
    | Admitted(key: Key, scope: Scope, ts: i64, digest: Digest)
    | FloorRaised(key: Key, ts: i64)

  function EventOf(op: Op): Option<Event> {
    match op
    case Admit(key, scope, ts, digest, _, _) => Some(Admitted(key, scope, ts, digest))
    case RaiseFloor(key, ts, _) => Some(FloorRaised(key, ts))
    case _ => None
  }

  function Logged(log: seq<Event>, op: Op, answer: Admission): seq<Event> {
    if answer == Accepted && EventOf(op).Some? then log + [EventOf(op).value] else log
  }

  ghost function LogAfter(limits: Limits, ops: seq<Op>): seq<Event>
    requires limits.maxPerKey >= 1
  {
    if ops == [] then []
    else
      Logged(LogAfter(limits, ops[..|ops| - 1]), ops[|ops| - 1], AnswerTo(limits, ops, |ops| - 1))
  }

  /** The last accepted request of a key's scope. */
  function LastAdmitted(log: seq<Event>, key: Key, scope: Scope): (r: Option<Mark>)
    ensures r.Some? ==> Admitted(key, scope, r.value.ts, r.value.digest) in log && r.value.scope == scope
    ensures r.None? ==> forall ts, d :: Admitted(key, scope, ts, d) !in log
  {
    if log == [] then None
    else
      var e := log[|log| - 1];
      if e.Admitted? && e.key == key && e.scope == scope then Some(Mark(scope, e.ts, e.digest))
      else LastAdmitted(log[..|log| - 1], key, scope)
  }

  ghost predicate Superseded(log: seq<Event>, key: Key, ts: i64) {
    exists f :: FloorRaised(key, f) in log && ts < SatAdd(f, 1)
  }

  /** What a server that remembered every accepted request forever would answer. */
  ghost function LogAnswer(log: seq<Event>, op: Op): Admission {
    match op
    case Prune(_) => Accepted
    case Admit(key, scope, ts, digest, mode, now) =>
      if !FreshAt(ts, now.wall) then Stale
      else if Superseded(log, key, ts) then Replay
      else if exists t, d :: Admitted(key, scope, t, d) in log && ts < t then Replay
      else if mode == IdempotentRepeat && LastAdmitted(log, key, scope) == Some(Mark(scope, ts, digest)) then Repeat
      else if Admitted(key, scope, ts, digest) in log then Replay
      else Accepted
    case RaiseFloor(key, ts, now) =>
      if !FreshAt(ts, now.wall) then Stale else if Superseded(log, key, ts) then Replay else Accepted
    case CheckFloor(key, ts, now) =>
      if !FreshAt(ts, now.wall) then Stale else if Superseded(log, key, ts) then Replay else Accepted
  }
}
