/**
 The replay guard as the server keeps it: the key states, an index of them by
 horizon for eviction, and a running count of all marks. Each method is proved
 to take exactly the step `ReplaySpec` gives.
 */
module ReplayGuardStore {
  import opened Options
  import opened Int64
  import opened MapSum
  import opened ReplaySpec
  import opened Seqs
  import opened ReplayRefinement

  lemma {:induction false} LeastExists(s: set<(i64, Key)>) returns (e: (i64, Key))
    requires s != {}
    ensures e in s && forall f :: f in s ==> e.0 <= f.0
  {
    e :| e in s;
    if s != {e} {
      var rest := LeastExists(s - {e});
      if rest.0 < e.0 { e := rest; }
    }
  }

  lemma NeverAcceptsByRefusal(state: KeyState, scope: Scope, ts: i64, digest: Digest, mode: Mode)
    ensures Refusal(state.floor, state.marks, scope, ts, digest, mode) != Some(Accepted)
  {
  }

  /** Pruning twice at one moment is pruning once. */
  lemma PrunedTwice(g: Guard, now: Now)
    ensures Pruned(Pruned(g, now), now) == Pruned(g, now)
  {
  }

  ghost function Index(keys: map<Key, KeyState>): set<(i64, Key)> {
    set k | k in keys :: (keys[k].horizon, k)
  }

  lemma IndexWithout(keys: map<Key, KeyState>, key: Key)
    requires key in keys
    ensures Index(keys - {key}) == Index(keys) - {(keys[key].horizon, key)}
  {
    forall e | e in Index(keys) && e != (keys[key].horizon, key)
      ensures e in Index(keys - {key})
    {
      assert e.1 in keys - {key};
    }
  }

  lemma IndexWith(keys: map<Key, KeyState>, key: Key, st: KeyState)
    ensures Index(keys[key := st]) == Index(keys - {key}) + {(st.horizon, key)}
  {
    assert keys[key := st] - {key} == keys - {key};
    IndexWithout(keys[key := st], key);
    assert (st.horizon, key) in Index(keys[key := st]);
  }

  lemma TotalWithout(keys: map<Key, KeyState>, key: Key)
    requires key in keys
    ensures TotalMarks(keys) == |keys[key].marks| + TotalMarks(keys - {key})
  {
    SumRemove(MarkCounts(keys), key);
    assert MarkCounts(keys - {key}) == MarkCounts(keys) - {key};
  }

  /** `g` is `g0` with some lapsed keys evicted. */
  ghost predicate PartlyPruned(g0: Guard, g: Guard, clock: i64) {
    && (forall k :: k in g.keys ==> k in g0.keys && g.keys[k] == g0.keys[k])
    && (forall k :: k in g0.keys && k !in g.keys ==>
          LapsedAt(g0.keys[k].horizon, clock) && g0.keys[k].horizon <= g.dropped)
    && g0.dropped <= g.dropped
    && (g.dropped == g0.dropped || exists k :: k in g0.keys && k !in g.keys && g0.keys[k].horizon == g.dropped)
  }

  lemma EvictOne(g0: Guard, g: Guard, clock: i64, key: Key)
    requires PartlyPruned(g0, g, clock)
    requires key in g.keys && LapsedAt(g.keys[key].horizon, clock)
    ensures PartlyPruned(g0, Guard(g.keys - {key}, Max(g.dropped, g.keys[key].horizon)), clock)
  {
  }

  lemma EvictedAll(g0: Guard, g: Guard, now: Now)
    requires PartlyPruned(g0, g, now.PruneClock())
    requires forall k :: k in g.keys ==> !LapsedAt(g.keys[k].horizon, now.PruneClock())
    ensures g == Pruned(g0, now)
  {
    assert g.keys == Pruned(g0, now).keys;
  }

  class ReplayGuard {
    var keys: map<Key, KeyState>
    /** The (horizon, key) of every key, ordered by horizon. */
    var byHorizon: set<(i64, Key)>
    var marks: nat
    var dropped: i64
    const limits: Limits

    ghost predicate Valid()
      reads this
    {
      && byHorizon == Index(keys)
      && marks == TotalMarks(keys)
      && limits.maxKeys >= 1 && limits.maxMarks >= 1 && limits.maxPerKey >= 1
    }

    ghost function State(): Guard
      reads this
    {
      Guard(keys, dropped)
    }

    constructor (maxKeys: nat, maxMarks: nat, maxPerKey: nat)
      ensures Valid() && State() == EMPTY
      ensures limits == Limits(if maxKeys == 0 then 1 else maxKeys, if maxMarks == 0 then 1 else maxMarks,
                               if maxPerKey == 0 then 1 else maxPerKey)
    {
      keys, byHorizon, marks, dropped := map[], {}, 0, I64_MIN;
      limits := Limits(if maxKeys == 0 then 1 else maxKeys, if maxMarks == 0 then 1 else maxMarks,
                       if maxPerKey == 0 then 1 else maxPerKey);
    }

    /** The entry with the oldest horizon. */
    method First() returns (e: (i64, Key))
      requires byHorizon != {}
      ensures e in byHorizon && forall f :: f in byHorizon ==> e.0 <= f.0
    {
      ghost var least := LeastExists(byHorizon);
      e :| e in byHorizon && forall f :: f in byHorizon ==> e.0 <= f.0;
    }

    /** Leaves exactly the keys with unlapsed horizons, and the watermark at the newest horizon lost. */
    method Prune(now: Now)
      requires Valid()
      modifies this
      ensures Valid()
      ensures State() == Pruned(old(State()), now)
    {
      var clock := now.PruneClock();
      while byHorizon != {}
        invariant Valid()
        invariant PartlyPruned(old(State()), State(), clock)
        decreases |byHorizon|
      {
        var first := First();
        var (horizon, key) := first;
        if !LapsedAt(horizon, clock) { break; }
        IndexWithout(keys, key);
        TotalWithout(keys, key);
        EvictOne(old(State()), State(), clock, key);
        byHorizon := byHorizon - {first};
        marks := marks - |keys[key].marks|;
        keys := keys - {key};
        dropped := Max(dropped, horizon);
      }
      assert forall k :: k in keys ==> (keys[k].horizon, k) in byHorizon;
      EvictedAll(old(State()), State(), now);
    }

    /** Answers without a trace: stale by the wall clock, replayed by the floor, or accepted. */
    function CheckFloor(key: Key, ts: i64, now: Now): (r: Admission)
      reads this
      ensures r == CheckFloorAnswer(State(), key, ts, now)
    {
      if !FreshAt(ts, now.wall) then Stale
      else if key in keys && ts < keys[key].floor then Replay
      else Accepted
    }

    /** Prunes, then says whether both limits leave a place for a key not yet known. */
    method MakeRoomForKey(now: Now) returns (room: bool)
      requires Valid()
      modifies this
      ensures Valid()
      ensures State() == Pruned(old(State()), now)
      ensures room == (|keys| < limits.maxKeys && TotalMarks(keys) < limits.maxMarks)
    {
      Prune(now);
      room := |keys| < limits.maxKeys && marks < limits.maxMarks;
    }

    /** Put back `key`'s state after a request: count the marks it released and
        added, and bring the index in step with its new horizon. */
    method PutBack(key: Key, state: KeyState, released: nat, added: nat)
      requires Valid()
      requires |StateOf(State(), key).marks| + added == released + |state.marks|
      modifies this
      ensures Valid() && dropped == old(dropped)
      ensures keys == old(keys)[key := Reindexed(state)]
    {
      var oldHorizon := StateOf(Guard(keys, dropped), key).horizon;
      var indexed := Reindexed(state);
      TotalWith(keys, key, indexed);
      IndexWith(keys, key, indexed);
      if key in keys { IndexWithout(keys, key); } else { assert keys - {key} == keys; }
      assert forall h :: (h, key) !in Index(keys - {key});
      marks := marks + added - released;
      keys := keys[key := indexed];
      if indexed.horizon != oldHorizon || (oldHorizon, key) !in byHorizon {
        byHorizon := byHorizon - {(oldHorizon, key)};
        byHorizon := byHorizon + {(indexed.horizon, key)};
      }
    }

    /** Prune, then see that `key` has a state or room for one. */
    method Prepare(key: Key, now: Now) returns (room: bool)
      requires Valid()
      modifies this
      ensures Valid()
      ensures State() == Pruned(old(State()), now)
      ensures room == HasRoom(State(), key, limits)
    {
      Prune(now);
      PrunedTwice(old(State()), now);
      room := true;
      if key !in keys { room := MakeRoomForKey(now); }
    }

    /** Takes the floor step of the index-free guard. */
    method RaiseFloor(key: Key, ts: i64, now: Now) returns (r: Admission)
      requires Valid()
      modifies this
      ensures Valid()
      ensures (State(), r) == RaiseFloorStep(old(State()), limits, ReplaySpec.RaiseFloor(key, ts, now))
    {
      if !(FreshAt(ts, now.wall) && ts > dropped) { return Stale; }
      var room := Prepare(key, now);
      if !room { return Full; }
      var state := if key in keys then keys[key] else NEW_KEY;
      if ts < state.floor { return Replay; }
      var before := |state.marks|;
      state := RaiseFloorOf(state, SatAdd(ts, 1));
      PutBack(key, state, before - |state.marks|, 0);
      r := Accepted;
    }

    static method PlaceOn(state0: KeyState, mark: Mark, full: bool, maxPerKey: nat)
      returns (outcome: Admission, state: KeyState)
      requires maxPerKey >= 1
      ensures (outcome, state) == Place(state0, mark, full, maxPerKey)
      ensures |state.marks| <= |state0.marks| + (if outcome == Accepted then 1 else 0)
    {
      state := state0;
      if |state.marks| >= maxPerKey || (full && state.marks != []) {
        state := RaiseFloorOf(state, SatAdd(OldestTs(state.marks).value, 1));
        if mark.ts < state.floor { return Replay, state; }
      } else if full {
        return Full, state;
      }
      state := state.(marks := state.marks + [mark]);
      outcome := Accepted;
    }

    /** Whether the key's floor or the scope's marks refuse the request. */
    static method RefuseOn(state: KeyState, scope: Scope, ts: i64, digest: Digest, mode: Mode)
      returns (refusal: Option<Admission>, newer: bool)
      ensures refusal == Refusal(state.floor, state.marks, scope, ts, digest, mode)
      ensures refusal.None? ==>
                Superseding(scope, ts, state.marks) ==
                if newer then Filter(NotOfScope(scope), state.marks) else state.marks
    {
      if ts < state.floor { return Some(Replay), false; }
      var newest := NewestTs(Filter(OfScope(scope), state.marks));
      if newest.None? { return None, false; }
      if ts < newest.value { return Some(Replay), false; }
      if ts > newest.value { return None, true; }
      var latest := LatestOf(scope, state.marks);
      if mode == IdempotentRepeat && latest.Some? && latest.value.digest == digest { return Some(Repeat), false; }
      var seen := false;
      for i := 0 to |state.marks|
        invariant seen <==> exists j :: 0 <= j < i && state.marks[j].scope == scope && state.marks[j].digest == digest
      {
        if state.marks[i].scope == scope && state.marks[i].digest == digest { seen := true; }
      }
      refusal, newer := if seen then Some(Replay) else None, false;
    }

    /** The answer to one request and the state it leaves its key in, with how
        many of the key's marks were released on the way. */
    static method DecideOn(state0: KeyState, scope: Scope, ts: i64, digest: Digest, mode: Mode, clock: i64,
                           poolFull: bool, maxPerKey: nat)
      returns (outcome: Admission, state: KeyState, released: nat)
      requires maxPerKey >= 1
      ensures (outcome, state) == Decide(state0, scope, ts, digest, mode, clock, poolFull, maxPerKey)
      ensures |state0.marks| + (if outcome == Accepted then 1 else 0) == released + |state.marks|
    {
      hide Refusal, Place, Filter, Superseding;
      state := state0.(marks := Filter(Unlapsed(clock), state0.marks));
      released := |state0.marks| - |state.marks|;
      var refusal, newer := RefuseOn(state, scope, ts, digest, mode);
      if refusal.Some? {
        NeverAcceptsByRefusal(state, scope, ts, digest, mode);
        return refusal.value, state, released;
      }
      if newer {
        var before := |state.marks|;
        state := state.(marks := Filter(NotOfScope(scope), state.marks));
        released := released + before - |state.marks|;
      }
      var before := |state.marks|;
      outcome, state := PlaceOn(state, Mark(scope, ts, digest), poolFull && released == 0, maxPerKey);
      released := released + before + (if outcome == Accepted then 1 else 0) - |state.marks|;
    }

    method AdmitPruned(key: Key, scope: Scope, ts: i64, digest: Digest, mode: Mode, now: Now) returns (r: Admission)
      requires Valid()
      modifies this
      ensures Valid()
      ensures (State(), r) == AdmitInto(old(State()), limits, ReplaySpec.Admit(key, scope, ts, digest, mode, now))
    {
      hide Decide, Index, Sum, Filter, NewestTs, Reindexed;
      var clock := now.PruneClock();
      var poolFull := marks >= limits.maxMarks;
      var state := if key in keys then keys[key] else NEW_KEY;
      var lapsed := NewestTs(Filter(Lapsed(clock), state.marks));
      var outcome, state', released := DecideOn(state, scope, ts, digest, mode, clock, poolFull, limits.maxPerKey);
      PutBack(key, state', released, if outcome == Accepted then 1 else 0);
      if lapsed.Some? { dropped := Max(dropped, lapsed.value); }
      r := outcome;
    }

    /** Takes the admission step of the index-free guard. */
    method Admit(key: Key, scope: Scope, ts: i64, digest: Digest, mode: Mode, now: Now) returns (r: Admission)
      requires Valid()
      modifies this
      ensures Valid()
      ensures (State(), r) == AdmitStep(old(State()), limits, ReplaySpec.Admit(key, scope, ts, digest, mode, now))
    {
      hide AdmitInto, Pruned, HasRoom, Index, Sum;
      if !(FreshAt(ts, now.wall) && ts > dropped) { return Stale; }
      var room := Prepare(key, now);
      if !room { return Full; }
      r := AdmitPruned(key, scope, ts, digest, mode, now);
    }
  }
}
