/**
 What every run of the channel registry keeps, over any operations in any order at any
 clock readings but a rename's at 1970: a room's single current name, its few retired ones,
 its tombstones, and handles one to a key.
 */
module RegistrySafety {
  import opened Options
  import opened MapSum
  import opened RegistrySpec

  predicate RecordOk(r: Record) {
    && r.retiredAt >= 0
    && (r.claimAfterDays == 0 <==> r.nominee.None?)
    && r.claimAfterDays <= CLAIM_AFTER_DAYS_MAX
  }

  ghost predicate RecordsOk(names: Names) { forall n :: n in names ==> RecordOk(names[n]) }

  ghost predicate OneCurrent(names: Names) {
    forall room, n, m :: IsCurrentOf(names, room, n) && IsCurrentOf(names, room, m) ==> n == m
  }

  ghost predicate FewRetired(names: Names) {
    forall room :: |RetiredOf(names, room)| <= MAX_RETIRED_NAMES
  }

  /** A record is deleted exactly when its room is. */
  ghost predicate TombsAgree(names: Names, deleted: set<RoomId>) {
    forall n :: n in names ==> (names[n].deleted <==> names[n].room in deleted)
  }

  ghost predicate NamesInv(names: Names, deleted: set<RoomId>) {
    && RecordsOk(names) && OneCurrent(names) && FewRetired(names) && TombsAgree(names, deleted)
    && |names| <= MAX_CHANNEL_NAMES
  }

  /** Handles and keys are one to one, and exactly the holders have an activity. */
  ghost predicate HandlesInv(h: Handles) {
    && (forall u, v :: u in h.holders && v in h.holders && h.holders[u] == h.holders[v] ==> u == v)
    && (forall k :: k in h.activity <==> k in h.holders.Values)
    && |h.holders| <= MAX_USERNAMES
  }

  ghost predicate Inv(s: Registry) { NamesInv(s.names, s.deleted) && HandlesInv(s.handles) }

  // ---------------------------------------------------------------- fewer and changed records

  lemma StillFew(names: Names, names': Names)
    requires FewRetired(names) && forall room :: RetiredOf(names', room) <= RetiredOf(names, room)
    ensures FewRetired(names')
  {
    hide RetiredOf;
    forall room ensures |RetiredOf(names', room)| <= MAX_RETIRED_NAMES {
      SubsetSize(RetiredOf(names', room), RetiredOf(names, room));
    }
  }

  /** No room but `room` gains a current name, and it has at most `n`. */
  lemma StillOne(names: Names, names': Names, room: RoomId, n: Name)
    requires OneCurrent(names)
    requires forall other, m :: other != room && IsCurrentOf(names', other, m) ==> IsCurrentOf(names, other, m)
    requires forall m :: IsCurrentOf(names', room, m) ==> m == n
    ensures OneCurrent(names')
  {
    hide IsCurrentOf;
  }

  lemma NoneMoreCurrent(names: Names, names': Names)
    requires OneCurrent(names)
    requires forall room, m :: IsCurrentOf(names', room, m) ==> IsCurrentOf(names, room, m)
    ensures OneCurrent(names')
  {
    hide IsCurrentOf;
  }

  lemma FewerNames(names: Names, deleted: set<RoomId>, gone: set<Name>)
    requires NamesInv(names, deleted)
    ensures NamesInv(names - gone, deleted)
  {
    hide OneCurrent, FewRetired;
    var names' := names - gone;
    StillFew(names, names');
    NoneMoreCurrent(names, names');
    assert names'.Keys == names.Keys - gone;
    SubsetSize(names'.Keys, names.Keys);
  }

  /** A record changed without moving, retiring, reviving or burying it. */
  lemma SameStanding(names: Names, deleted: set<RoomId>, n: Name, r: Record)
    requires NamesInv(names, deleted) && n in names && RecordOk(r)
    requires r.room == names[n].room && r.deleted == names[n].deleted && r.retiredAt == names[n].retiredAt
    ensures NamesInv(names[n := r], deleted)
  {
    hide OneCurrent, FewRetired;
    var names' := names[n := r];
    StillFew(names, names');
    NoneMoreCurrent(names, names');
    assert names'.Keys == names.Keys;
  }

  lemma RefreshInv(names: Names, deleted: set<RoomId>, n: Name, now: int)
    requires NamesInv(names, deleted) && n in names
    ensures NamesInv(Refreshed(names, n, now), deleted)
  {
    hide OneCurrent, FewRetired, TombsAgree;
    SameStanding(names, deleted, n, names[n].(refreshedAt := now));
  }

  /** A stamp leaves a record's standing, and whether it is abandoned, as they were. */
  lemma StampKeeps(r: Record, now: int)
    ensures var r' := Stamped(r, now);
            && r' == r.(refreshedAt := r'.refreshedAt) && (r.deleted || r.refreshedAt > 0 ==> r' == r)
            && (r'.Abandoned(now) <==> r.Abandoned(now)) && Stamped(r', now) == r'
  {
  }

  lemma GrandfatherInv(names: Names, deleted: set<RoomId>, now: int)
    requires NamesInv(names, deleted)
    ensures NamesInv(Grandfathered(names, now), deleted)
  {
    hide OneCurrent, FewRetired;
    var names' := Grandfathered(names, now);
    StillFew(names, names');
    NoneMoreCurrent(names, names');
    assert names'.Keys == names.Keys;
  }

  /** Every holder has an activity, so no handle is grandfathered. */
  lemma NothingToGrandfather(h: Handles, now: int)
    requires HandlesInv(h)
    ensures GrandfatheredActivity(h, now) == h.activity
  {
  }

  lemma FewerHandles(h: Handles, gone: set<Handle>)
    requires HandlesInv(h)
    ensures HandlesInv(WithoutHandles(h, gone))
  {
    var h' := WithoutHandles(h, gone);
    assert h'.holders.Keys == h.holders.Keys - gone;
    SubsetSize(h'.holders.Keys, h.holders.Keys);
    forall k ensures k in h'.activity <==> k in h'.holders.Values {
      if k in h'.holders.Values {
        var u :| u in h'.holders && h'.holders[u] == k;
        assert k in h.holders.Values by { assert u in h.holders && h.holders[u] == k; }
      }
      if k in h'.activity {
        assert k in h.holders.Values;
        var u :| u in h.holders && h.holders[u] == k;
        assert u !in gone;
        assert u in h'.holders && h'.holders[u] == k;
      }
    }
  }

  /** A sweep keeps exactly the names not abandoned, at most stamped. */
  lemma ReapInv(s: Registry, now: int)
    requires Inv(s)
    ensures Inv(ReapedStale(s, now))
    ensures forall n :: n in ReapedStale(s, now).names <==> n in s.names && !s.names[n].Abandoned(now)
    ensures forall n :: n in ReapedStale(s, now).names ==> ReapedStale(s, now).names[n] == Stamped(s.names[n], now)
  {
    hide NamesInv, HandlesInv, IdleHandles, WithoutHandles;
    var aged := Grandfathered(s.names, now);
    GrandfatherInv(s.names, s.deleted, now);
    FewerNames(aged, s.deleted, Gone(aged, aged.Keys, now));
    var h := s.handles;
    NothingToGrandfather(h, now);
    assert Handles(h.holders, GrandfatheredActivity(h, now)) == h;
    FewerHandles(h, IdleHandles(h, now));
    forall n | n in s.names ensures aged[n].Abandoned(now) <==> s.names[n].Abandoned(now) {
      StampKeeps(s.names[n], now);
    }
  }

  /** The same record, or the same one stamped. */
  predicate SameOrStamped(r: Record, r': Record, now: int) { r' == r || r' == Stamped(r, now) }

  lemma MakeRoomInv(s: Registry, now: int)
    requires Inv(s)
    ensures Inv(MadeRoom(s, now))
    ensures MadeRoom(s, now).names.Keys <= s.names.Keys
    ensures forall n :: n in MadeRoom(s, now).names ==> SameOrStamped(s.names[n], MadeRoom(s, now).names[n], now)
    ensures forall n :: n in s.names && !s.names[n].Abandoned(now) ==> n in MadeRoom(s, now).names
    ensures MadeRoom(s, now).deleted == s.deleted && MadeRoom(s, now).open == s.open
  {
    hide Inv, Stamped;
    if |s.names| >= MAX_CHANNEL_NAMES { ReapInv(s, now); }
  }

  // ---------------------------------------------------------------- a new name, a rename

  lemma Grows(names: Names, n: Name, r: Record)
    requires n !in names
    ensures |names[n := r]| == |names| + 1
  {
    assert names[n := r].Keys == names.Keys + {n};
  }

  lemma NoneMoreRetired(names: Names, n: Name, r: Record)
    requires FewRetired(names) && !r.IsRetired()
    ensures FewRetired(names[n := r])
  {
    StillFew(names, names[n := r]);
  }

  lemma InsertInv(names: Names, deleted: set<RoomId>, n: Name, r: Record)
    requires NamesInv(names, deleted) && n !in names && |names| < MAX_CHANNEL_NAMES
    requires RecordOk(r) && r.IsCurrent() && r.room !in deleted
    requires forall m :: !IsCurrentOf(names, r.room, m)
    ensures NamesInv(names[n := r], deleted)
  {
    hide OneCurrent, FewRetired;
    var names' := names[n := r];
    Grows(names, n, r);
    NoneMoreRetired(names, n, r);
    StillOne(names, names', r.room, n) by {
      hide RecordsOk, TombsAgree;
      assert forall m :: m != n ==> (IsCurrentOf(names', r.room, m) ==> IsCurrentOf(names, r.room, m));
    }
  }

  lemma ClaimClearedInv(env: Env, s: Registry, q: Ask)
    requires Inv(s) && q.room !in s.deleted
    ensures Inv(ClaimCleared(env, s, q).0)
  {
    hide NamesInv, HandlesInv, ReapedStale, MadeRoom;
    var held := CurrentOf(s.names, q.room);
    if held.Some? && held.value != q.name {
      RefreshInv(s.names, s.deleted, held.value, q.now);
    } else if q.name in s.names {
      var r := s.names[q.name].(private := q.private, display := q.display, refreshedAt := q.now);
      NamesOk(s.names, s.deleted, q.name);
      SameStanding(s.names, s.deleted, q.name, r);
    } else if !LookalikeElsewhere(env, s.names, q.room, q.name) {
      MakeRoomInv(s, q.now);
      var s' := MadeRoom(s, q.now);
      if |s'.names| < MAX_CHANNEL_NAMES {
        assert forall m :: !IsCurrentOf(s'.names, q.room, m) by {
          assert forall m :: IsCurrentOf(s'.names, q.room, m) ==> IsCurrentOf(s.names, q.room, m);
        }
        InsertInv(s'.names, s'.deleted, q.name, NewRecord(q));
      }
    }
  }

  lemma NamesOk(names: Names, deleted: set<RoomId>, n: Name)
    requires NamesInv(names, deleted) && n in names
    ensures RecordOk(names[n]) && (names[n].deleted <==> names[n].room in deleted)
  {
  }

  lemma ClaimInv(env: Env, s: Registry, q: Ask)
    requires Inv(s)
    ensures Inv(Claim(env, s, q).0)
  {
    hide NamesInv, HandlesInv, ClaimCleared, Gone, Candidates;
    if q.room !in s.deleted {
      FewerNames(s.names, s.deleted, Gone(s.names, Candidates(env, s.names, q.room, q.name), q.now));
      ClaimClearedInv(env, s.(names := Cleared(env, s.names, q.room, q.name, q.now)), q);
    }
  }

  /** Everything but how many names the room has retired survives a move. */
  lemma MoveInv(names: Names, deleted: set<RoomId>, from: Name, q: Ask)
    requires NamesInv(names, deleted) && q.now > 0
    requires from in names && names[from].IsCurrent() && from != q.name
    requires q.name in names ==> names[q.name].IsRetired() && names[q.name].room == names[from].room
    ensures var names' := Moved(names, from, q);
            && RecordsOk(names') && OneCurrent(names') && TombsAgree(names', deleted)
            && IsCurrentOf(names', names[from].room, q.name) && names'[from].retiredAt == q.now
            && forall room :: room != names[from].room ==> RetiredOf(names', room) == RetiredOf(names, room)
  {
    hide FewRetired;
    var room := names[from].room;
    var names' := Moved(names, from, q);
    assert IsCurrentOf(names, room, from);
    assert RecordOk(names[from]);
    StillOne(names, names', room, q.name) by {
      assert forall m :: IsCurrentOf(names', room, m) ==> m == q.name || IsCurrentOf(names, room, m);
    }
  }

  /** Releasing the surplus leaves the room within its limit and touches no other record. */
  lemma {:induction false} SurplusInv(names: Names, room: RoomId)
    ensures var names' := SurplusReleased(names, room);
            && |RetiredOf(names', room)| <= MAX_RETIRED_NAMES
            && names'.Keys <= names.Keys
            && (forall n :: n in names' ==> names'[n] == names[n])
            && (forall n :: n in names && n !in RetiredOf(names, room) ==> n in names')
    decreases |RetiredOf(names, room)|
  {
    if |RetiredOf(names, room)| > MAX_RETIRED_NAMES {
      OldestExists(names, RetiredOf(names, room));
      var n :| IsOldest(names, RetiredOf(names, room), n) &&
          SurplusReleased(names, room) == SurplusReleased(names - {n}, room);
      assert RetiredOf(names - {n}, room) == RetiredOf(names, room) - {n};
      SurplusInv(names - {n}, room);
    }
  }

  ghost predicate LatestKept(names: Names, names': Names, room: RoomId) {
    forall n, m :: n in names && n !in names' && m in RetiredOf(names', room) ==>
      m in names && names[n].retiredAt <= names[m].retiredAt
  }

  /** What stays is exactly as many as the room may have, the latest retired of them. */
  lemma {:induction false} SurplusExact(names: Names, room: RoomId)
    ensures |RetiredOf(SurplusReleased(names, room), room)| ==
            if |RetiredOf(names, room)| < MAX_RETIRED_NAMES then |RetiredOf(names, room)| else MAX_RETIRED_NAMES
    ensures LatestKept(names, SurplusReleased(names, room), room)
    decreases |RetiredOf(names, room)|
  {
    if |RetiredOf(names, room)| > MAX_RETIRED_NAMES {
      OldestExists(names, RetiredOf(names, room));
      var n :| IsOldest(names, RetiredOf(names, room), n) &&
          SurplusReleased(names, room) == SurplusReleased(names - {n}, room);
      assert RetiredOf(names - {n}, room) == RetiredOf(names, room) - {n};
      SurplusExact(names - {n}, room);
      SurplusInv(names - {n}, room);
      OldestGoes(names, SurplusReleased(names, room), room, n);
    }
  }

  lemma OldestGoes(names: Names, names': Names, room: RoomId, n: Name)
    requires IsOldest(names, RetiredOf(names, room), n) && LatestKept(names - {n}, names', room)
    requires names'.Keys <= names.Keys && forall x :: x in names' ==> names'[x] == names[x]
    ensures LatestKept(names, names', room)
  {
    hide NoLater;
    forall x, m | x in names && x !in names' && m in RetiredOf(names', room)
      ensures m in names && names[x].retiredAt <= names[m].retiredAt
    {
      assert m in RetiredOf(names, room);
      if x == n { NoLaterMeans(names, n, m); } else { assert x in names - {n} && (names - {n})[x] == names[x]; }
    }
  }

  lemma NoLaterMeans(names: Names, n: Name, m: Name)
    requires n in names && m in names && NoLater(names, n, m)
    ensures names[n].retiredAt <= names[m].retiredAt
  {
  }

  lemma RenameFromInv(env: Env, s: Registry, from: Name, q: Ask)
    requires Inv(s) && IsCurrentOf(s.names, q.room, from) && from != q.name && q.now > 0
    requires !s.names[from].Abandoned(q.now)
    ensures Inv(RenameFrom(env, s, from, q).0)
  {
    hide HandlesInv, NamesInv, MadeRoom, SurplusReleased, Moved, LookalikeElsewhere;
    var s' := if q.name in s.names then s else MadeRoom(s, q.now);
    MakeRoomInv(s, q.now);
    if RenameFrom(env, s, from, q).1 == Ok {
      if q.name in s.names { NamesOk(s.names, s.deleted, q.name); }
      MovedAndReleased(s'.names, s'.deleted, from, q);
    }
  }

  lemma MovedKeys(names: Names, from: Name, q: Ask)
    requires from in names
    ensures var keys := Moved(names, from, q).Keys;
            keys == names.Keys + {q.name} && |keys| == if q.name in names then |names| else |names| + 1
  {
    if q.name in names { assert names.Keys + {q.name} == names.Keys; }
  }

  lemma FewAfterMove(names: Names, moved: Names, names': Names, room: RoomId)
    requires FewRetired(names) && |RetiredOf(names', room)| <= MAX_RETIRED_NAMES
    requires forall other :: other != room ==> RetiredOf(moved, other) == RetiredOf(names, other)
    requires names'.Keys <= moved.Keys && forall n :: n in names' ==> names'[n] == moved[n]
    ensures FewRetired(names')
  {
    forall other ensures |RetiredOf(names', other)| <= MAX_RETIRED_NAMES {
      if other != room {
        assert RetiredOf(names', other) <= RetiredOf(moved, other);
        SubsetSize(RetiredOf(names', other), RetiredOf(names, other));
      }
    }
  }

  lemma MovedAndReleased(names: Names, deleted: set<RoomId>, from: Name, q: Ask)
    requires NamesInv(names, deleted) && q.now > 0
    requires IsCurrentOf(names, q.room, from) && from != q.name
    requires if q.name in names then names[q.name].IsRetired() && names[q.name].room == q.room
             else |names| < MAX_CHANNEL_NAMES
    ensures NamesInv(SurplusReleased(Moved(names, from, q), q.room), deleted)
  {
    hide SurplusReleased, Moved, OneCurrent;
    var moved := Moved(names, from, q);
    MoveInv(names, deleted, from, q);
    SurplusInv(moved, q.room);
    var names' := SurplusReleased(moved, q.room);
    FewAfterMove(names, moved, names', q.room);
    NoneMoreCurrent(moved, names');
    MovedKeys(names, from, q);
    SubsetSize(names'.Keys, moved.Keys);
  }

  lemma RenameInv(env: Env, s: Registry, q: Ask)
    requires Inv(s) && q.now > 0
    ensures Inv(Rename(env, s, q).0)
  {
    hide NamesInv, HandlesInv, Claim, RenameFrom;
    if q.room !in s.deleted {
      var s1 := s.(names := Cleared(env, s.names, q.room, q.name, q.now));
      FewerNames(s.names, s.deleted, Gone(s.names, Candidates(env, s.names, q.room, q.name), q.now));
      var held := CurrentOf(s1.names, q.room);
      if held.None? || held.value == q.name {
        ClaimInv(env, s1, q);
      } else {
        RenameFromInv(env, s1, held.value, q);
      }
    }
  }

  // ---------------------------------------------------------------- nomination, handover, deletion

  lemma NominateInv(s: Registry, room: RoomId, key: Key, nominee: Option<Key>, days: nat, valid: bool)
    requires Inv(s)
    ensures Inv(Nominate(s, room, key, nominee, days, valid).0)
  {
    hide NamesInv, HandlesInv;
    var held := CurrentOf(s.names, room);
    if Nominate(s, room, key, nominee, days, valid).1 == Ok {
      NamesOk(s.names, s.deleted, held.value);
      SameStanding(s.names, s.deleted, held.value, Nominate(s, room, key, nominee, days, valid).0.names[held.value]);
    }
  }

  lemma HandedOverInv(names: Names, deleted: set<RoomId>, n: Name, r: Record)
    requires NamesInv(names, deleted) && n in names && names[n].IsCurrent() && RecordOk(r) && r.IsCurrent()
    requires r.room !in deleted && forall m :: !IsCurrentOf(names, r.room, m)
    ensures NamesInv(names[n := r], deleted)
  {
    hide OneCurrent, FewRetired;
    var names' := names[n := r];
    NoneMoreRetired(names, n, r);
    StillOne(names, names', r.room, n) by {
      hide RecordsOk, TombsAgree;
      assert forall m :: m != n ==> (IsCurrentOf(names', r.room, m) ==> IsCurrentOf(names, r.room, m));
    }
    assert names'.Keys == names.Keys;
  }

  lemma HandoverInv(env: Env, s: Registry, from: RoomId, to: RoomId, key: Key, signer: Key, now: int)
    requires Inv(s)
    ensures Inv(Handover(env, s, from, to, key, signer, now).0)
  {
    hide NamesInv, HandlesInv;
    var already, held := CurrentOf(s.names, to), CurrentOf(s.names, from);
    if already.Some? {
      RefreshInv(s.names, s.deleted, already.value, now);
    } else if held.Some? {
      NamesOk(s.names, s.deleted, held.value);
      if to !in s.deleted {
        HandedOverInv(s.names, s.deleted, held.value, HandedOver(s.names[held.value], to, key, signer, now));
      }
    }
  }

  lemma DeleteInv(s: Registry, room: RoomId, key: Key)
    requires Inv(s)
    ensures Inv(Delete(s, room, key).0)
  {
    hide HandlesInv, OneCurrent, FewRetired;
    var names' := Buried(s.names, room);
    StillFew(s.names, names');
    NoneMoreCurrent(s.names, names');
    assert names'.Keys == s.names.Keys;
  }

  // ---------------------------------------------------------------- handles

  lemma HandleFound(h: Handles, key: Key)
    requires HandlesInv(h)
    ensures HandleOf(h, key).Some? <==> key in h.holders.Values
    ensures HandleOf(h, key).Some? ==> HandleOf(h, key).value in h.holders && h.holders[HandleOf(h, key).value] == key
  {
  }

  /** A key without a handle takes one that nobody holds. */
  lemma GrantInv(h: Handles, handle: Handle, key: Key, now: int)
    requires (forall u, v :: u in h.holders && v in h.holders && h.holders[u] == h.holders[v] ==> u == v)
    requires forall k :: k != key ==> (k in h.activity <==> k in h.holders.Values)
    requires handle !in h.holders && key !in h.holders.Values && |h.holders| < MAX_USERNAMES
    ensures HandlesInv(Handles(h.holders[handle := key], h.activity[key := now]))
  {
    var h' := Handles(h.holders[handle := key], h.activity[key := now]);
    assert h'.holders.Keys == h.holders.Keys + {handle};
    forall k ensures k in h'.activity <==> k in h'.holders.Values {
      if k == key {
        assert handle in h'.holders && h'.holders[handle] == key;
      } else {
        if k in h.holders.Values {
          var u :| u in h.holders && h.holders[u] == k;
          assert u in h'.holders && h'.holders[u] == k;
        }
        if k in h'.holders.Values {
          var u :| u in h'.holders && h'.holders[u] == k;
          assert u in h.holders && h.holders[u] == k;
        }
      }
    }
  }

  /** What a key's change of handle leaves in between: its activity, but no handle. */
  lemma GivenUp(h: Handles, u: Handle, key: Key)
    requires HandlesInv(h) && u in h.holders && h.holders[u] == key
    ensures key !in (h.holders - {u}).Values && |h.holders - {u}| < MAX_USERNAMES
    ensures forall k :: k != key ==> (k in h.activity <==> k in (h.holders - {u}).Values)
  {
    var holders := h.holders - {u};
    assert holders.Keys == h.holders.Keys - {u};
    forall k | k != key ensures k in h.activity <==> k in holders.Values {
      if k in h.holders.Values {
        var v :| v in h.holders && h.holders[v] == k;
        assert v in holders && holders[v] == k;
      }
      if k in holders.Values {
        var v :| v in holders && holders[v] == k;
        assert v in h.holders && h.holders[v] == k;
      }
    }
  }

  /** A key that holds a handle is refused another only because someone holds that one, and
      then keeps its own. */
  lemma HolderNeverLoses(s: Registry, key: Key, handle: Handle, now: int)
    requires Inv(s) && key in s.handles.holders.Values
    ensures var (s', answer) := ClaimHandle(s, key, handle, now);
            answer == Ok || (answer == Taken && s' == s)
  {
    hide NamesInv, ReapedStale;
    var h := s.handles;
    if handle in h.holders && IsIdle(h, h.holders[handle], now) {
      var h1 := WithoutHandles(h, {handle});
      FewerHandles(h, {handle});
      assert h1.holders.Keys == h.holders.Keys - {handle};
      if HandleOf(h1, key).Some? { HandleFound(h1, key); GivenUp(h1, HandleOf(h1, key).value, key); }
    } else {
      HandleFound(h, key);
      GivenUp(h, HandleOf(h, key).value, key);
    }
  }

  lemma HandleInv(s: Registry, key: Key, handle: Handle, now: int)
    requires Inv(s)
    ensures Inv(ClaimHandle(s, key, handle, now).0)
  {
    hide NamesInv, HandlesInv, ReapedStale, WithoutHandles;
    var h := s.handles;
    FewerHandles(h, {handle});
    var h1 := if handle in h.holders && IsIdle(h, h.holders[handle], now) then WithoutHandles(h, {handle}) else h;
    if handle in h1.holders {
      ActiveInv(h1, handle, now);
    } else if HandleOf(h1, key).Some? {
      ChangeInv(s.(handles := h1), key, handle, now);
    } else {
      NewHolderInv(s.(handles := h1), key, handle, now);
    }
  }

  lemma ActiveInv(h: Handles, u: Handle, now: int)
    requires HandlesInv(h) && u in h.holders
    ensures HandlesInv(h.(activity := h.activity[h.holders[u] := now]))
  {
    assert h.holders[u] in h.holders.Values;
  }

  lemma ChangeInv(s: Registry, key: Key, handle: Handle, now: int)
    requires HandlesInv(s.handles) && handle !in s.handles.holders && HandleOf(s.handles, key).Some?
    ensures var h := s.handles;
            var left := h.holders - {HandleOf(h, key).value};
            |left| < MAX_USERNAMES && HandlesInv(Handles(left[handle := key], h.activity[key := now]))
  {
    var h := s.handles;
    HandleFound(h, key);
    GivenUp(h, HandleOf(h, key).value, key);
    GrantInv(h.(holders := h.holders - {HandleOf(h, key).value}), handle, key, now);
  }

  lemma NewHolderInv(s: Registry, key: Key, handle: Handle, now: int)
    requires Inv(s) && handle !in s.handles.holders && HandleOf(s.handles, key).None?
    ensures var s' := if |s.handles.holders| >= MAX_USERNAMES then ReapedStale(s, now) else s;
            && Inv(s')
            && (|s'.handles.holders| < MAX_USERNAMES ==>
                  HandlesInv(Handles(s'.handles.holders[handle := key], s'.handles.activity[key := now])))
  {
    hide NamesInv, ReapedNames;
    HandleFound(s.handles, key);
    ReapInv(s, now);
    var s' := if |s.handles.holders| >= MAX_USERNAMES then ReapedStale(s, now) else s;
    FewerHolders(s, now);
    if |s'.handles.holders| < MAX_USERNAMES { GrantInv(s'.handles, handle, key, now); }
  }

  lemma FewerHolders(s: Registry, now: int)
    requires Inv(s)
    ensures ReapedStale(s, now).handles.holders.Keys <= s.handles.holders.Keys
    ensures ReapedStale(s, now).handles.holders.Values <= s.handles.holders.Values
  {
    hide NamesInv, ReapedNames, HandlesInv;
    var holders, holders' := s.handles.holders, ReapedStale(s, now).handles.holders;
    assert forall u :: u in holders' ==> u in holders && holders'[u] == holders[u];
    forall k | k in holders'.Values ensures k in holders.Values {
      var u :| u in holders' && holders'[u] == k;
      assert u in holders && holders[u] == k;
    }
  }

  // ---------------------------------------------------------------- every run

  /** Not a rename read at 1970 or before. */
  predicate ClockOk(op: Op) { op.RenameName? ==> op.now > 0 }

  lemma StepInv(env: Env, s: Registry, op: Op)
    requires Inv(s) && ClockOk(op)
    ensures Inv(Step(env, s, op).0)
  {
    hide Inv, Claim, Rename, Nominate, Handover, Delete, ReapedStale, ClaimHandle;
    if s.open {
      match op
      case ClaimName(room, key, name, display, private, now) =>
        if name.Some? { ClaimInv(env, s, Ask(room, key, name.value, display, private, now)); }
      case RenameName(room, key, name, display, private, now) =>
        if name.Some? { RenameInv(env, s, Ask(room, key, name.value, display, private, now)); }
      case SetNominee(room, key, nominee, days, valid) => NominateInv(s, room, key, nominee, days, valid);
      case HandOver(from, to, key, signer, valid, now) => HandoverInv(env, s, from, to, key, signer, now);
      case DeleteRoom(room, key) => DeleteInv(s, room, key);
      case Reap(now) => ReapInv(s, now);
      case TakeHandle(key, handle, now) =>
        if handle.Some? { HandleInv(s, key, handle.value, now); }
      case Close => CloseInv(s);
    } else {
      CloseInv(s);
    }
  }

  lemma InvOne(s: Registry)
    requires Inv(s)
    ensures OneCurrent(s.names)
  {
  }

  lemma CloseInv(s: Registry)
    requires Inv(s)
    ensures Inv(s.(open := false))
  {
  }

  /** After every run a room has at most one current and three retired names, records and
      tombstones agree, and handles and keys are one to one. */
  lemma {:induction false} RunInv(env: Env, ops: seq<Op>)
    requires forall op :: op in ops ==> ClockOk(op)
    ensures Inv(After(env, ops))
  {
    if ops == [] {
      assert forall room :: RetiredOf(map[], room) == {};
    } else {
      hide Inv, Step;
      RunInv(env, ops[..|ops| - 1]);
      StepInv(env, After(env, ops[..|ops| - 1]), ops[|ops| - 1]);
    }
  }
}
