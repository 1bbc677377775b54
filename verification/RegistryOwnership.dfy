/**
 Who can move or end a room's hold on its name, what a deletion settles for good, and
 when names of different rooms can look alike.
 */
module RegistryOwnership {
  import opened Options
  import opened RegistrySpec
  import opened RegistrySafety

  // ---------------------------------------------------------------- a name still held

  /** The same holding, at most refreshed. */
  predicate SameHold(a: Record, b: Record, now: int) {
    && b.IsCurrent() && b.room == a.room && b.key == a.key
    && b.nominee == a.nominee && b.claimAfterDays == a.claimAfterDays
    && (b.refreshedAt == a.refreshedAt || b.refreshedAt == now)
  }

  predicate Keeps(names: Names, names': Names, n: Name, now: int)
    requires n in names
  {
    n in names' && SameHold(names[n], names'[n], now)
  }

  lemma StampedHold(r: Record, r': Record, now: int)
    requires SameOrStamped(r, r', now) && r.IsCurrent()
    ensures SameHold(r, r', now)
  {
  }

  lemma RoomKeeps(s: Registry, now: int, n: Name)
    requires Inv(s) && n in s.names && s.names[n].IsCurrent() && !s.names[n].Abandoned(now)
    ensures Keeps(s.names, MadeRoom(s, now).names, n, now)
  {
    hide Inv, MadeRoom, SameOrStamped;
    MakeRoomInv(s, now);
    StampedHold(s.names[n], MadeRoom(s, now).names[n], now);
  }

  lemma ClaimClearedKeeps(env: Env, s: Registry, q: Ask, n: Name)
    requires Inv(s) && n in s.names && s.names[n].IsCurrent() && !s.names[n].Abandoned(q.now)
    ensures Keeps(s.names, ClaimCleared(env, s, q).0.names, n, q.now)
  {
    hide MadeRoom, LookalikeElsewhere, Inv;
    RoomKeeps(s, q.now, n);
  }

  lemma ClearedKeeps(env: Env, s: Registry, room: RoomId, name: Name, now: int)
    requires Inv(s)
    ensures var names := Cleared(env, s.names, room, name, now);
            && Inv(s.(names := names))
            && names.Keys <= s.names.Keys
            && (forall n :: n in names ==> names[n] == s.names[n])
            && (forall n :: n in s.names && !s.names[n].Abandoned(now) ==> n in names)
            && (forall n :: n in names && (n == name || names[n].room == room ||
                                           env.skeleton(n) == env.skeleton(name)) ==>
                  !names[n].Abandoned(now))
  {
    FewerNames(s.names, s.deleted, Gone(s.names, Candidates(env, s.names, room, name), now));
  }

  lemma ClaimKeeps(env: Env, s: Registry, q: Ask, n: Name)
    requires Inv(s) && n in s.names && s.names[n].IsCurrent() && !s.names[n].Abandoned(q.now)
    ensures Keeps(s.names, Claim(env, s, q).0.names, n, q.now)
  {
    hide Inv, ClaimCleared, Cleared;
    if q.room !in s.deleted {
      ClearedKeeps(env, s, q.room, q.name, q.now);
      ClaimClearedKeeps(env, s.(names := Cleared(env, s.names, q.room, q.name, q.now)), q, n);
    }
  }

  lemma HeldIs(names: Names, room: RoomId, n: Name)
    requires OneCurrent(names) && IsCurrentOf(names, room, n)
    ensures CurrentOf(names, room) == Some(n)
  {
  }

  /** A rename moves a name only if it is the room's own and its key signed. */
  lemma RenameFromKeeps(env: Env, s: Registry, from: Name, q: Ask, n: Name)
    requires Inv(s) && IsCurrentOf(s.names, q.room, from) && from != q.name
    requires n in s.names && s.names[n].IsCurrent() && !s.names[n].Abandoned(q.now)
    requires !(s.names[n].room == q.room && s.names[n].key == q.key)
    ensures Keeps(s.names, RenameFrom(env, s, from, q).0.names, n, q.now)
  {
    hide MadeRoom, LookalikeElsewhere, SurplusReleased, Inv;
    RoomKeeps(s, q.now, n);
    var s' := if q.name in s.names then s else MadeRoom(s, q.now);
    if n != from && from in s'.names && (q.name in s.names ==> CanTakeBack(s.names[q.name], q.room, q.key)) {
      SurplusInv(Moved(s'.names, from, q), q.room);
    }
  }

  lemma RenameKeeps(env: Env, s: Registry, q: Ask, n: Name)
    requires Inv(s) && n in s.names && s.names[n].IsCurrent() && !s.names[n].Abandoned(q.now)
    requires !(s.names[n].room == q.room && s.names[n].key == q.key)
    ensures Keeps(s.names, Rename(env, s, q).0.names, n, q.now)
  {
    hide Inv, Claim, RenameFrom, Cleared;
    if q.room !in s.deleted {
      ClearedKeeps(env, s, q.room, q.name, q.now);
      var s1 := s.(names := Cleared(env, s.names, q.room, q.name, q.now));
      var held := CurrentOf(s1.names, q.room);
      if held.None? || held.value == q.name {
        ClaimKeeps(env, s1, q, n);
      } else {
        RenameFromKeeps(env, s1, held.value, q, n);
      }
    }
  }

  lemma NominateKeeps(s: Registry, room: RoomId, key: Key, nominee: Option<Key>, days: nat, valid: bool, n: Name,
                      now: int)
    requires Inv(s) && n in s.names && s.names[n].IsCurrent()
    requires !(s.names[n].room == room && s.names[n].key == key)
    ensures Keeps(s.names, Nominate(s, room, key, nominee, days, valid).0.names, n, now)
  {
    hide FewRetired, RecordsOk, TombsAgree, HandlesInv;
    if s.names[n].room == room { HeldIs(s.names, room, n); }
  }

  lemma HandoverKeeps(env: Env, s: Registry, from: RoomId, to: RoomId, key: Key, signer: Key, now: int, n: Name)
    requires Inv(s) && n in s.names && s.names[n].IsCurrent()
    requires !(s.names[n].room == from && (s.names[n].key == signer || s.names[n].NomineeMay(signer, now)))
    ensures Keeps(s.names, Handover(env, s, from, to, key, signer, now).0.names, n, now)
  {
    hide FewRetired, RecordsOk, TombsAgree, HandlesInv;
    if s.names[n].room == from { HeldIs(s.names, from, n); }
  }

  lemma DeleteKeeps(s: Registry, room: RoomId, key: Key, n: Name, now: int)
    requires n in s.names && s.names[n].IsCurrent()
    requires !(s.names[n].room == room && s.names[n].key == key)
    ensures Keeps(s.names, Delete(s, room, key).0.names, n, now)
  {
    if s.names[n].room == room { assert n in NamesOf(s.names, room); }
  }

  lemma ReapKeeps(s: Registry, now: int, n: Name)
    requires Inv(s) && n in s.names && s.names[n].IsCurrent() && !s.names[n].Abandoned(now)
    ensures Keeps(s.names, ReapedStale(s, now).names, n, now)
  {
    hide Inv;
    ReapInv(s, now);
  }

  /** A handle claim leaves the names as they were, or swept. */
  lemma HandleNames(s: Registry, key: Key, handle: Handle, now: int)
    ensures var names := ClaimHandle(s, key, handle, now).0.names;
            names == s.names || names == ReapedStale(s, now).names
  {
    hide ReapedNames, ReapedHandles, WithoutHandles, HandleOf, IsIdle;
  }

  lemma HandleKeeps(s: Registry, key: Key, handle: Handle, now: int, n: Name)
    requires Inv(s) && n in s.names && s.names[n].IsCurrent() && !s.names[n].Abandoned(now)
    ensures Keeps(s.names, ClaimHandle(s, key, handle, now).0.names, n, now)
  {
    hide Inv, ClaimHandle, ReapedStale;
    HandleNames(s, key, handle, now);
    ReapKeeps(s, now, n);
  }

  // ---------------------------------------------------------------- who may end a holding

  predicate OwnRename(op: Op, r: Record) { op.RenameName? && op.room == r.room && op.key == r.key }

  predicate OwnDelete(op: Op, r: Record) { op.DeleteRoom? && op.room == r.room && op.key == r.key }

  predicate OwnNomination(op: Op, r: Record) { op.SetNominee? && op.room == r.room && op.key == r.key }

  /** A handover with the right to move the name: its key's, or its nominee's after the full silence. */
  predicate RightfulHandover(op: Op, r: Record) {
    op.HandOver? && op.from == r.room && (op.signer == r.key || r.NomineeMay(op.signer, op.now))
  }

  predicate AbandonedAt(op: Op, r: Record) { Timed(op) && r.Abandoned(op.now) }

  function TimeOf(op: Op): int { if Timed(op) then op.now else 0 }

  /** Any other operation leaves a current name with its holder. */
  lemma OthersKeep(env: Env, s: Registry, op: Op, n: Name)
    requires Inv(s) && n in s.names && s.names[n].IsCurrent()
    requires var r := s.names[n];
             !OwnRename(op, r) && !OwnDelete(op, r) && !OwnNomination(op, r) && !RightfulHandover(op, r) &&
                 !AbandonedAt(op, r)
    ensures Keeps(s.names, Step(env, s, op).0.names, n, TimeOf(op))
  {
    hide Inv, Claim, Rename, Nominate, Handover, Delete, ReapedStale, ClaimHandle;
    if s.open {
      match op
      case ClaimName(room, key, name, display, private, now) =>
        if name.Some? { ClaimKeeps(env, s, Ask(room, key, name.value, display, private, now), n); }
      case RenameName(room, key, name, display, private, now) =>
        if name.Some? { RenameKeeps(env, s, Ask(room, key, name.value, display, private, now), n); }
      case SetNominee(room, key, nominee, days, valid) => NominateKeeps(s, room, key, nominee, days, valid, n, 0);
      case HandOver(from, to, key, signer, valid, now) => HandoverKeeps(env, s, from, to, key, signer, now, n);
      case DeleteRoom(room, key) => DeleteKeeps(s, room, key, n, 0);
      case Reap(now) => ReapKeeps(s, now, n);
      case TakeHandle(key, handle, now) =>
        if handle.Some? { HandleKeeps(s, key, handle.value, now, n); }
      case Close =>
    }
  }

  predicate Bound(s: Registry, n: Name, room: RoomId, key: Key) {
    n in s.names && s.names[n].IsCurrent() && s.names[n].room == room && s.names[n].key == key
  }

  predicate Lost(s: Registry, n: Name) { n !in s.names || !s.names[n].IsCurrent() }

  /** A current name changes hands only by a rightful handover, to the room and key it names;
      it stops being current only by its own key's rename or delete; or else it was abandoned. */
  lemma OnlyItsHolder(env: Env, s: Registry, op: Op, n: Name)
    requires Inv(s) && n in s.names && s.names[n].IsCurrent()
    ensures var r, s' := s.names[n], Step(env, s, op).0;
            || Bound(s', n, r.room, r.key)
            || (RightfulHandover(op, r) && Bound(s', n, op.to, op.key))
            || ((OwnRename(op, r) || OwnDelete(op, r)) && Lost(s', n))
            || AbandonedAt(op, r)
  {
    var r := s.names[n];
    if RightfulHandover(op, r) {
      hide Inv;
      RightfulFate(env, s, op.from, op.to, op.key, op.signer, op.now, n);
    } else if OwnNomination(op, r) {
      hide Inv;
      OneOnly(s, r.room, n);
    } else if OwnRename(op, r) && !AbandonedAt(op, r) {
      hide Inv, Rename;
      if s.open && op.name.Some? {
        OwnRenameFate(env, s, Ask(r.room, r.key, op.name.value, op.display, op.private, op.now), n);
      }
    } else if OwnDelete(op, r) {
    } else if !AbandonedAt(op, r) {
      hide Inv, Step;
      OthersKeep(env, s, op, n);
    }
  }

  lemma RightfulFate(env: Env, s: Registry, from: RoomId, to: RoomId, key: Key, signer: Key, now: int, n: Name)
    requires Inv(s) && IsCurrentOf(s.names, from, n)
    ensures var s' := Handover(env, s, from, to, key, signer, now).0;
            Bound(s', n, from, s.names[n].key) || Bound(s', n, to, key)
  {
    hide Inv;
    OneOnly(s, from, n);
  }

  /** A room's rename leaves its name as it was or retires it. */
  lemma OwnRenameFate(env: Env, s: Registry, q: Ask, n: Name)
    requires Inv(s) && n in s.names && s.names[n].IsCurrent() && !s.names[n].Abandoned(q.now)
    requires s.names[n].room == q.room && s.names[n].key == q.key
    ensures var s' := Rename(env, s, q).0;
            Bound(s', n, q.room, q.key) || Lost(s', n)
  {
    hide Inv, Claim, RenameFrom, Cleared;
    if q.room !in s.deleted {
      ClearedKeeps(env, s, q.room, q.name, q.now);
      var s1 := s.(names := Cleared(env, s.names, q.room, q.name, q.now));
      OneOnly(s1, q.room, n);
      if n == q.name {
        ClaimKeeps(env, s1, q, n);
      } else {
        OwnRenameFrom(env, s1, n, q);
      }
    }
  }

  lemma OneOnly(s: Registry, room: RoomId, n: Name)
    requires Inv(s) && IsCurrentOf(s.names, room, n)
    ensures CurrentOf(s.names, room) == Some(n)
  {
    HeldIs(s.names, room, n);
  }

  lemma OwnRenameFrom(env: Env, s: Registry, from: Name, q: Ask)
    requires Inv(s) && IsCurrentOf(s.names, q.room, from) && from != q.name && !s.names[from].Abandoned(q.now)
    ensures var s' := RenameFrom(env, s, from, q).0;
            Bound(s', from, q.room, s.names[from].key) || Lost(s', from)
  {
    hide Inv, MadeRoom, LookalikeElsewhere, SurplusReleased;
    MakeRoomInv(s, q.now);
    var s' := if q.name in s.names then s else MadeRoom(s, q.now);
    if from in s'.names {
      SurplusInv(Moved(s'.names, from, q), q.room);
    }
  }

  // ---------------------------------------------------------------- held through the grace

  ghost function RunFrom(env: Env, s: Registry, ops: seq<Op>): Registry {
    if ops == [] then s else Step(env, RunFrom(env, s, ops[..|ops| - 1]), ops[|ops| - 1]).0
  }

  /** The operations' clock readings do not go back, from `first` up to `last`. */
  ghost predicate Steady(ops: seq<Op>, first: int, last: int) {
    if ops == [] then first <= last
    else
      var init, op := ops[..|ops| - 1], ops[|ops| - 1];
      if Timed(op) then op.now <= last && Steady(init, first, op.now) else Steady(init, first, last)
  }

  /** Not the holder ending or changing its holding, nor its nominee asking after the full silence. */
  predicate Foreign(op: Op, r: Record) {
    !OwnRename(op, r) && !OwnDelete(op, r) && !OwnNomination(op, r) && !RightfulHandover(op, r)
  }

  ghost predicate StillHeld(s: Registry, n: Name, r: Record, last: int) {
    && Inv(s) && n in s.names && s.names[n].IsCurrent()
    && s.names[n].room == r.room && s.names[n].key == r.key
    && s.names[n].nominee == r.nominee && s.names[n].claimAfterDays == r.claimAfterDays
    && r.refreshedAt <= s.names[n].refreshedAt <= last
  }

  lemma StepStillHeld(env: Env, s: Registry, op: Op, n: Name, r: Record, last: int)
    requires StillHeld(s, n, r, last) && Foreign(op, r)
    requires ClockOk(op) && (Timed(op) ==> op.now == last)
    requires last - r.refreshedAt <= r.ReleaseAfter()
    ensures StillHeld(Step(env, s, op).0, n, r, last)
  {
    hide Inv, Step;
    OthersKeep(env, s, op, n);
    StepInv(env, s, op);
    if !Timed(op) { KeptRefresh(env, s, op, n); }
  }

  /** An operation that carries no time refreshes nothing. */
  lemma KeptRefresh(env: Env, s: Registry, op: Op, n: Name)
    requires !Timed(op) && n in s.names && n in Step(env, s, op).0.names
    ensures Step(env, s, op).0.names[n].refreshedAt == s.names[n].refreshedAt
  {
  }

  lemma LaterStillHeld(s: Registry, n: Name, r: Record, was: int, last: int)
    requires StillHeld(s, n, r, was) && was <= last
    ensures StillHeld(s, n, r, last)
  {
    hide Inv;
  }

  /** While its holder does not act and its nominee not rightfully, no run takes a name before the
      silence its release needs. */
  lemma {:induction false} HeldUntilReleased(env: Env, s: Registry, ops: seq<Op>, n: Name, last: int)
    requires Inv(s) && n in s.names && s.names[n].IsCurrent()
    requires forall op :: op in ops ==> Foreign(op, s.names[n]) && ClockOk(op)
    requires Steady(ops, s.names[n].refreshedAt, last)
    requires last - s.names[n].refreshedAt <= s.names[n].ReleaseAfter()
    ensures StillHeld(RunFrom(env, s, ops), n, s.names[n], last)
  {
    if ops != [] {
      hide Inv, Step, StillHeld;
      var init, op := ops[..|ops| - 1], ops[|ops| - 1];
      var at := if Timed(op) then op.now else last;
      HeldUntilReleased(env, s, init, n, at);
      StepStillHeld(env, RunFrom(env, s, init), op, n, s.names[n], at);
      LaterStillHeld(RunFrom(env, s, ops), n, s.names[n], at, last);
    }
  }

  /** So a nominated name stays with its room until its nominee has had the whole grace. */
  lemma NomineeHasItsGrace(env: Env, s: Registry, ops: seq<Op>, n: Name, last: int)
    requires Inv(s) && n in s.names && s.names[n].IsCurrent() && s.names[n].HasNominee()
    requires forall op :: op in ops ==> Foreign(op, s.names[n]) && ClockOk(op)
    requires Steady(ops, s.names[n].refreshedAt, last)
    requires last <= s.names[n].refreshedAt + s.names[n].claimAfterDays * DAY + NOMINEE_GRACE_SECS
    ensures Bound(RunFrom(env, s, ops), n, s.names[n].room, s.names[n].key)
  {
    hide Inv, RunFrom, Steady;
    HeldUntilReleased(env, s, ops, n, last);
  }

  // ---------------------------------------------------------------- a retired name

  predicate Untouched(names: Names, names': Names, n: Name)
    requires n in names
  {
    n in names' && names'[n] == names[n]
  }

  /** The same, but that a time of refresh it never had may have been put in. */
  predicate SameButStamp(r: Record, r': Record) {
    r' == r.(refreshedAt := r'.refreshedAt) && (r.refreshedAt > 0 ==> r' == r)
  }

  lemma StampOnly(r: Record, r': Record, now: int)
    requires SameOrStamped(r, r', now)
    ensures SameButStamp(r, r')
  {
  }

  lemma SameButStampTwice(a: Record, b: Record, c: Record)
    requires SameButStamp(a, b) && SameButStamp(b, c)
    ensures SameButStamp(a, c)
  {
  }

  lemma SameStandingButStamp(r: Record, r': Record)
    requires SameButStamp(r, r')
    ensures r'.room == r.room && r'.key == r.key && r'.deleted == r.deleted && r'.retiredAt == r.retiredAt
  {
  }

  predicate Stays(names: Names, names': Names, n: Name)
    requires n in names
  {
    n in names' && SameButStamp(names[n], names'[n])
  }

  lemma RoomStays(s: Registry, now: int, n: Name)
    requires Inv(s) && n in s.names && !s.names[n].Abandoned(now)
    ensures Stays(s.names, MadeRoom(s, now).names, n)
  {
    hide Inv, MadeRoom, SameOrStamped, SameButStamp;
    MakeRoomInv(s, now);
    StampOnly(s.names[n], MadeRoom(s, now).names[n], now);
  }

  lemma ReapStays(s: Registry, now: int, n: Name)
    requires Inv(s) && n in s.names && !s.names[n].Abandoned(now)
    ensures Stays(s.names, ReapedStale(s, now).names, n)
  {
    hide Inv, ReapedStale, SameButStamp;
    ReapInv(s, now);
    StampOnly(s.names[n], ReapedStale(s, now).names[n], now);
  }

  lemma ClaimClearedLeavesRetired(env: Env, s: Registry, q: Ask, n: Name)
    requires Inv(s) && n in s.names && s.names[n].IsRetired() && !s.names[n].Abandoned(q.now)
    ensures Stays(s.names, ClaimCleared(env, s, q).0.names, n)
  {
    hide Inv, MadeRoom, LookalikeElsewhere;
    RoomStays(s, q.now, n);
  }

  lemma ClaimLeavesRetired(env: Env, s: Registry, q: Ask, n: Name)
    requires Inv(s) && n in s.names && s.names[n].IsRetired() && !s.names[n].Abandoned(q.now)
    ensures Stays(s.names, Claim(env, s, q).0.names, n)
  {
    SameAsIs(s.names[n]);
    hide Inv, Cleared, ClaimCleared, SameButStamp;
    if q.room !in s.deleted {
      ClearedKeeps(env, s, q.room, q.name, q.now);
      ClaimClearedLeavesRetired(env, s.(names := Cleared(env, s.names, q.room, q.name, q.now)), q, n);
    }
  }

  lemma SameAsIs(r: Record)
    ensures SameButStamp(r, r)
  {
  }

  /** Another room's name comes out of a rename as making room left it, or as it was. */
  lemma RenameFromOthers(env: Env, s: Registry, from: Name, q: Ask, n: Name)
    requires Inv(s) && IsCurrentOf(s.names, q.room, from)
    requires n in s.names && s.names[n].room != q.room
    requires n in MadeRoom(s, q.now).names && MadeRoom(s, q.now).names[n].room != q.room
    ensures var names := RenameFrom(env, s, from, q).0.names;
            n in names && (names[n] == s.names[n] || names[n] == MadeRoom(s, q.now).names[n])
  {
    hide Inv, MadeRoom, LookalikeElsewhere, SurplusReleased;
    var s' := if q.name in s.names then s else MadeRoom(s, q.now);
    if from in s'.names { SurplusInv(Moved(s'.names, from, q), q.room); }
  }

  lemma RenameFromLeavesRetired(env: Env, s: Registry, from: Name, q: Ask, n: Name)
    requires Inv(s) && IsCurrentOf(s.names, q.room, from)
    requires n in s.names && s.names[n].IsRetired() && !s.names[n].Abandoned(q.now) && s.names[n].room != q.room
    ensures Stays(s.names, RenameFrom(env, s, from, q).0.names, n)
  {
    SameAsIs(s.names[n]);
    hide Inv, MadeRoom, RenameFrom, SameButStamp;
    RoomStays(s, q.now, n);
    SameStandingButStamp(s.names[n], MadeRoom(s, q.now).names[n]);
    RenameFromOthers(env, s, from, q, n);
  }

  lemma RenameLeavesRetired(env: Env, s: Registry, q: Ask, n: Name)
    requires Inv(s) && n in s.names && s.names[n].IsRetired() && !s.names[n].Abandoned(q.now)
    requires s.names[n].room != q.room
    ensures Stays(s.names, Rename(env, s, q).0.names, n)
  {
    SameAsIs(s.names[n]);
    hide Inv, Claim, RenameFrom, Cleared, SameButStamp;
    if q.room !in s.deleted {
      ClearedKeeps(env, s, q.room, q.name, q.now);
      var s1 := s.(names := Cleared(env, s.names, q.room, q.name, q.now));
      var held := CurrentOf(s1.names, q.room);
      if held.None? || held.value == q.name {
        ClaimLeavesRetired(env, s1, q, n);
      } else {
        RenameFromLeavesRetired(env, s1, held.value, q, n);
      }
    }
  }

  lemma HandleLeavesNames(s: Registry, key: Key, handle: Handle, now: int, n: Name)
    requires Inv(s) && n in s.names && !s.names[n].Abandoned(now)
    ensures Stays(s.names, ClaimHandle(s, key, handle, now).0.names, n)
  {
    SameAsIs(s.names[n]);
    hide Inv, ClaimHandle, ReapedStale, SameButStamp;
    HandleNames(s, key, handle, now);
    ReapStays(s, now, n);
  }

  /** Neither a rename by the name's room nor a deletion under its key. */
  predicate LeavesRetired(op: Op, r: Record) { !(op.RenameName? && op.room == r.room) && !OwnDelete(op, r) }

  lemma StepLeavesRetired(env: Env, s: Registry, op: Op, n: Name)
    requires Inv(s) && n in s.names && s.names[n].IsRetired() && LeavesRetired(op, s.names[n])
    requires Timed(op) ==> op.now - s.names[n].retiredAt <= RETIRED_NAME_HOLD_SECS
    ensures Stays(s.names, Step(env, s, op).0.names, n)
  {
    SameAsIs(s.names[n]);
    hide Inv, Claim, Rename, ReapedStale, ClaimHandle, SameButStamp;
    if s.open {
      match op
      case ClaimName(room, key, name, display, private, now) =>
        if name.Some? { ClaimLeavesRetired(env, s, Ask(room, key, name.value, display, private, now), n); }
      case RenameName(room, key, name, display, private, now) =>
        if name.Some? { RenameLeavesRetired(env, s, Ask(room, key, name.value, display, private, now), n); }
      case DeleteRoom(room, key) =>
        if s.names[n].room == room { assert n in NamesOf(s.names, room); }
      case Reap(now) => ReapStays(s, now, n);
      case TakeHandle(key, handle, now) =>
        if handle.Some? { HandleLeavesNames(s, key, handle.value, now, n); }
      case _ =>
    }
  }

  /** A name its room has left stays that room's for the whole hold, as it was, whatever others do
      and the clock reads: only the room's own rename or delete can end that sooner. */
  lemma {:induction false} RetiredIsHeld(env: Env, s: Registry, ops: seq<Op>, n: Name)
    requires Inv(s) && n in s.names && s.names[n].IsRetired()
    requires forall op :: op in ops ==> ClockOk(op) && LeavesRetired(op, s.names[n])
    requires forall op :: op in ops && Timed(op) ==> op.now <= s.names[n].retiredAt + RETIRED_NAME_HOLD_SECS
    ensures Inv(RunFrom(env, s, ops)) && Stays(s.names, RunFrom(env, s, ops).names, n)
  {
    if ops == [] {
      SameAsIs(s.names[n]);
    } else {
      hide Inv, Step, SameButStamp;
      var init, op := ops[..|ops| - 1], ops[|ops| - 1];
      RetiredIsHeld(env, s, init, n);
      var s' := RunFrom(env, s, init);
      SameStandingButStamp(s.names[n], s'.names[n]);
      StepLeavesRetired(env, s', op, n);
      StepInv(env, s', op);
      SameButStampTwice(s.names[n], s'.names[n], RunFrom(env, s, ops).names[n]);
    }
  }

  // ---------------------------------------------------------------- deleted for good

  predicate IsBuried(names: Names, n: Name) { n in names && names[n].deleted }

  /** No record a claim clears away is a deleted one, and none of another room's lookalikes pass it by. */
  lemma ClaimRespectsBuried(env: Env, s: Registry, q: Ask, n: Name)
    requires Inv(s) && IsBuried(s.names, n)
    ensures var names := Claim(env, s, q).0.names;
            && n in names && names[n] == s.names[n]
            && NoneNewLike(env, s.names, names, n)
  {
    hide Inv, Cleared, MadeRoom;
    BuriedRoom(s, n);
    if q.room !in s.deleted {
      ClearedKeeps(env, s, q.room, q.name, q.now);
      var s1 := s.(names := Cleared(env, s.names, q.room, q.name, q.now));
      MakeRoomInv(s1, q.now);
      if env.skeleton(q.name) == env.skeleton(n) { assert n in Lookalikes(env, s1.names, q.name); }
    }
  }

  lemma BuriedRoom(s: Registry, n: Name)
    requires Inv(s) && IsBuried(s.names, n)
    ensures s.names[n].room in s.deleted && !s.names[n].Abandoned(0)
    ensures forall now :: !s.names[n].Abandoned(now)
  {
  }

  /** No name is on record after that was not before and has `n`'s skeleton. */
  ghost predicate NoneNewLike(env: Env, names: Names, names': Names, n: Name) {
    forall m :: m in names' && m !in names ==> env.skeleton(m) != env.skeleton(n)
  }

  lemma RenameFromRespectsBuried(env: Env, s: Registry, from: Name, q: Ask, n: Name)
    requires Inv(s) && IsBuried(s.names, n) && IsCurrentOf(s.names, q.room, from) && q.room !in s.deleted
    ensures var names := RenameFrom(env, s, from, q).0.names;
            && n in names && names[n] == s.names[n]
            && NoneNewLike(env, s.names, names, n)
  {
    hide Inv, MadeRoom, SurplusReleased;
    BuriedRoom(s, n);
    MakeRoomInv(s, q.now);
    if env.skeleton(q.name) == env.skeleton(n) { assert n in Lookalikes(env, s.names, q.name); }
    var s' := if q.name in s.names then s else MadeRoom(s, q.now);
    if from in s'.names { SurplusInv(Moved(s'.names, from, q), q.room); }
  }

  lemma RenameRespectsBuried(env: Env, s: Registry, q: Ask, n: Name)
    requires Inv(s) && IsBuried(s.names, n)
    ensures var names := Rename(env, s, q).0.names;
            && n in names && names[n] == s.names[n]
            && NoneNewLike(env, s.names, names, n)
  {
    hide Inv, Claim, RenameFrom, Cleared;
    BuriedRoom(s, n);
    if q.room !in s.deleted {
      ClearedKeeps(env, s, q.room, q.name, q.now);
      var s1 := s.(names := Cleared(env, s.names, q.room, q.name, q.now));
      var held := CurrentOf(s1.names, q.room);
      if held.None? || held.value == q.name {
        ClaimRespectsBuried(env, s1, q, n);
      } else {
        RenameFromRespectsBuried(env, s1, held.value, q, n);
      }
    }
  }

  lemma ReapRespectsBuried(s: Registry, now: int, n: Name)
    requires Inv(s) && IsBuried(s.names, n)
    ensures var names := ReapedStale(s, now).names;
            n in names && names[n] == s.names[n] && names.Keys <= s.names.Keys
  {
    hide Inv;
    BuriedRoom(s, n);
    ReapInv(s, now);
  }

  lemma StepRespectsBuried(env: Env, s: Registry, op: Op, n: Name)
    requires Inv(s) && IsBuried(s.names, n)
    ensures var names := Step(env, s, op).0.names;
            && n in names && names[n] == s.names[n]
            && NoneNewLike(env, s.names, names, n)
  {
    hide Inv, Claim, Rename, ReapedStale;
    if s.open {
      match op
      case ClaimName(room, key, name, display, private, now) =>
        if name.Some? { ClaimRespectsBuried(env, s, Ask(room, key, name.value, display, private, now), n); }
      case RenameName(room, key, name, display, private, now) =>
        if name.Some? { RenameRespectsBuried(env, s, Ask(room, key, name.value, display, private, now), n); }
      case Reap(now) => ReapRespectsBuried(s, now, n);
      case TakeHandle(key, handle, now) =>
        HandleTouchesNoName(s, key, handle, now, n);
      case _ =>
    }
  }

  lemma HandleTouchesNoName(s: Registry, key: Key, handle: Option<Handle>, now: int, n: Name)
    requires Inv(s) && IsBuried(s.names, n)
    ensures handle.Some? ==> var names := ClaimHandle(s, key, handle.value, now).0.names;
              n in names && names[n] == s.names[n] && names.Keys <= s.names.Keys
  {
    hide Inv, ClaimHandle, ReapedStale;
    if handle.Some? { HandleNames(s, key, handle.value, now); }
    ReapRespectsBuried(s, now, n);
  }

  lemma {:induction false} BuriedStays(env: Env, s: Registry, ops: seq<Op>, n: Name)
    requires Inv(s) && IsBuried(s.names, n)
    requires forall op :: op in ops ==> ClockOk(op)
    ensures Inv(RunFrom(env, s, ops)) && Untouched(s.names, RunFrom(env, s, ops).names, n)
  {
    if ops != [] {
      hide Inv, Step;
      var init, op := ops[..|ops| - 1], ops[|ops| - 1];
      BuriedStays(env, s, init, n);
      StepRespectsBuried(env, RunFrom(env, s, init), op, n);
      StepInv(env, RunFrom(env, s, init), op);
    }
  }

  /** A deleted name's record never changes again, and at no step of any later run is a name that
      looks like it put on record. */
  lemma DeletedForGood(env: Env, s: Registry, ops: seq<Op>, n: Name)
    requires Inv(s) && IsBuried(s.names, n)
    requires forall op :: op in ops ==> ClockOk(op)
    ensures Untouched(s.names, RunFrom(env, s, ops).names, n)
    ensures forall i :: 0 <= i < |ops| ==>
              NoneNewLike(env, RunFrom(env, s, ops[..i]).names, RunFrom(env, s, ops[..i + 1]).names, n)
  {
    hide Inv, Step, NoneNewLike;
    BuriedStays(env, s, ops, n);
    forall i | 0 <= i < |ops|
      ensures NoneNewLike(env, RunFrom(env, s, ops[..i]).names, RunFrom(env, s, ops[..i + 1]).names, n)
    {
      BuriedStays(env, s, ops[..i], n);
      assert ops[..i + 1][..i] == ops[..i];
      StepRespectsBuried(env, RunFrom(env, s, ops[..i]), ops[i], n);
    }
  }

  // ---------------------------------------------------------------- lookalikes

  /** Names that look alike are the same room's. */
  ghost predicate Apart(env: Env, names: Names) {
    forall n, m :: n in names && m in names && env.skeleton(n) == env.skeleton(m) ==> names[n].room == names[m].room
  }

  /** Fewer names, or the same in the same rooms, stay apart. */
  lemma ApartPart(env: Env, names: Names, names': Names)
    requires Apart(env, names)
    requires forall n :: n in names' ==> n in names && names'[n].room == names[n].room
    ensures Apart(env, names')
  {
  }

  lemma ApartInsert(env: Env, names: Names, n: Name, r: Record)
    requires Apart(env, names) && n !in names && !LookalikeElsewhere(env, names, r.room, n)
    ensures Apart(env, names[n := r])
  {
    assert forall m :: m in names && env.skeleton(m) == env.skeleton(n) ==> m in Lookalikes(env, names, n);
  }

  lemma FewerLookalikes(env: Env, names: Names, names': Names, room: RoomId, name: Name)
    requires names'.Keys <= names.Keys && forall n :: n in names' ==> names'[n].room == names[n].room
    requires !LookalikeElsewhere(env, names, room, name)
    ensures !LookalikeElsewhere(env, names', room, name)
  {
    assert forall n :: n in Lookalikes(env, names', name) ==> n in Lookalikes(env, names, name);
  }

  /** A claim that puts no new name on record leaves every record in its room. */
  lemma ClaimClearedRooms(env: Env, s: Registry, q: Ask)
    requires Inv(s)
    ensures var (s', answer) := ClaimCleared(env, s, q);
            !(answer == Ok && q.name !in s.names) ==>
              forall n :: n in s'.names ==> n in s.names && s'.names[n].room == s.names[n].room
  {
    hide Inv, MadeRoom, LookalikeElsewhere;
    MakeRoomInv(s, q.now);
  }

  lemma ClaimClearedApart(env: Env, s: Registry, q: Ask)
    requires Inv(s) && Apart(env, s.names)
    ensures Apart(env, ClaimCleared(env, s, q).0.names)
  {
    hide Inv, MadeRoom, Apart, LookalikeElsewhere;
    var (s', answer) := ClaimCleared(env, s, q);
    if answer == Ok && q.name !in s.names {
      MakeRoomInv(s, q.now);
      var made := MadeRoom(s, q.now);
      ApartPart(env, s.names, made.names);
      FewerLookalikes(env, s.names, made.names, q.room, q.name);
      ApartInsert(env, made.names, q.name, NewRecord(q));
    } else {
      hide ClaimCleared;
      ClaimClearedRooms(env, s, q);
      ApartPart(env, s.names, s'.names);
    }
  }

  lemma ClaimApart(env: Env, s: Registry, q: Ask)
    requires Inv(s) && Apart(env, s.names)
    ensures Apart(env, Claim(env, s, q).0.names)
  {
    hide Inv, Cleared, Apart, ClaimCleared;
    ClearedKeeps(env, s, q.room, q.name, q.now);
    var s1 := s.(names := Cleared(env, s.names, q.room, q.name, q.now));
    ApartPart(env, s.names, s1.names);
    ClaimClearedApart(env, s1, q);
  }

  lemma RenameFromApart(env: Env, s: Registry, from: Name, q: Ask)
    requires Inv(s) && Apart(env, s.names) && IsCurrentOf(s.names, q.room, from) && !s.names[from].Abandoned(q.now)
    ensures Apart(env, RenameFrom(env, s, from, q).0.names)
  {
    hide Inv, MadeRoom, SurplusReleased, Apart, LookalikeElsewhere;
    MakeRoomInv(s, q.now);
    var s' := if q.name in s.names then s else MadeRoom(s, q.now);
    ApartPart(env, s.names, s'.names);
    var moved := Moved(s'.names, from, q);
    if RenameFrom(env, s, from, q).1 == Ok {
      if q.name in s.names {
        ApartPart(env, s'.names, moved);
      } else {
        FewerLookalikes(env, s.names, s'.names, q.room, q.name);
        ApartInsert(env, s'.names, q.name, moved[q.name]);
        ApartPart(env, s'.names[q.name := moved[q.name]], moved);
      }
      SurplusInv(moved, q.room);
      ApartPart(env, moved, SurplusReleased(moved, q.room));
    }
  }

  lemma RenameApart(env: Env, s: Registry, q: Ask)
    requires Inv(s) && Apart(env, s.names)
    ensures Apart(env, Rename(env, s, q).0.names)
  {
    hide Inv, Cleared, Apart, Claim, RenameFrom;
    ClearedKeeps(env, s, q.room, q.name, q.now);
    var s1 := s.(names := Cleared(env, s.names, q.room, q.name, q.now));
    ApartPart(env, s.names, s1.names);
    if q.room !in s.deleted {
      var held := CurrentOf(s1.names, q.room);
      if held.None? || held.value == q.name {
        ClaimApart(env, s1, q);
      } else {
        RenameFromApart(env, s1, held.value, q);
      }
    }
  }

  /** Every record on record after was in the same room before. */
  ghost predicate SameRooms(names: Names, names': Names) {
    forall n :: n in names' ==> n in names && names'[n].room == names[n].room
  }

  lemma HandleRooms(s: Registry, key: Key, handle: Handle, now: int)
    requires Inv(s)
    ensures SameRooms(s.names, ClaimHandle(s, key, handle, now).0.names)
  {
    hide Inv, ClaimHandle, ReapedStale;
    HandleNames(s, key, handle, now);
    ReapInv(s, now);
  }

  lemma StepApart(env: Env, s: Registry, op: Op)
    requires Inv(s) && Apart(env, s.names) && !op.HandOver?
    ensures Apart(env, Step(env, s, op).0.names)
  {
    hide Inv, Claim, Rename, Apart, ClaimHandle, ReapedStale;
    var names' := Step(env, s, op).0.names;
    match op
    case ClaimName(room, key, name, display, private, now) =>
      if name.Some? { ClaimApart(env, s, Ask(room, key, name.value, display, private, now)); }
    case RenameName(room, key, name, display, private, now) =>
      if name.Some? { RenameApart(env, s, Ask(room, key, name.value, display, private, now)); }
    case SetNominee(_, _, _, _, _) => ApartPart(env, s.names, names');
    case DeleteRoom(_, _) => ApartPart(env, s.names, names');
    case Reap(now) =>
      ReapInv(s, now);
      ApartPart(env, s.names, names');
    case TakeHandle(key, handle, now) =>
      if handle.Some? { HandleRooms(s, key, handle.value, now); }
      ApartPart(env, s.names, names');
    case Close =>
  }

  /** Without handovers no two rooms ever have names that look alike on record. */
  lemma {:induction false} NoCrossRoomLookalikes(env: Env, ops: seq<Op>)
    requires forall op :: op in ops ==> !op.HandOver? && ClockOk(op)
    ensures Apart(env, After(env, ops).names)
  {
    if ops != [] {
      hide Inv, Step, Apart;
      var init, op := ops[..|ops| - 1], ops[|ops| - 1];
      NoCrossRoomLookalikes(env, init);
      RunInv(env, init);
      StepApart(env, After(env, init), op);
    }
  }

  /** A handover that moves a name keeps rooms apart exactly when the name had no lookalike on
      record: those the old room retired stay behind with it. */
  lemma HandoverApartIff(env: Env, s: Registry, from: RoomId, to: RoomId, key: Key, signer: Key, now: int, n: Name)
    requires Inv(s) && Apart(env, s.names) && IsCurrentOf(s.names, from, n)
    requires var s' := Handover(env, s, from, to, key, signer, now).0; n in s'.names && s'.names[n].room == to != from
    ensures Apart(env, Handover(env, s, from, to, key, signer, now).0.names) <==> Lookalikes(env, s.names, n) == {n}
  {
    hide Inv;
    OneOnly(s, from, n);
    var names' := Handover(env, s, from, to, key, signer, now).0.names;
    assert names'.Keys == s.names.Keys;
    assert n in Lookalikes(env, s.names, n);
    if m :| m in Lookalikes(env, s.names, n) && m != n {
      assert names'[m].room == s.names[m].room == from;
      assert !Apart(env, names');
    } else {
      assert Lookalikes(env, s.names, n) == {n};
      assert forall m :: m in s.names && m != n ==> m !in Lookalikes(env, s.names, n);
      assert Apart(env, names');
    }
  }

  /** The handover would move this name: the rooms stand and differ, the new one has no name, and
      the signer may speak for this one. */
  ghost predicate Hands(s: Registry, op: Op, n: Name) {
    && op.HandOver? && s.open && op.valid && op.to != op.from
    && op.from !in s.deleted && op.to !in s.deleted && CurrentOf(s.names, op.to).None?
    && IsCurrentOf(s.names, op.from, n)
    && (s.names[n].key == op.signer || s.names[n].NomineeMay(op.signer, op.now))
  }

  /** It would part a name from lookalikes that stay behind. */
  ghost predicate Parts(env: Env, s: Registry, op: Op) {
    exists n: Name :: Hands(s, op, n) && Lookalikes(env, s.names, n) != {n}
  }

  lemma HandsMoves(env: Env, s: Registry, op: Op, n: Name)
    requires Inv(s) && Hands(s, op, n)
    ensures var s' := Handover(env, s, op.from, op.to, op.key, op.signer, op.now).0;
            Step(env, s, op).0 == s' && n in s'.names && s'.names[n].room == op.to
  {
    hide Inv;
    OneOnly(s, op.from, n);
  }

  /** A handover that moves nothing refreshes one name at most. */
  lemma HandsNone(env: Env, s: Registry, op: Op)
    requires Inv(s) && op.HandOver? && forall n: Name :: !Hands(s, op, n)
    ensures SameRooms(s.names, Step(env, s, op).0.names)
  {
    hide Inv;
    var held := CurrentOf(s.names, op.from);
    if held.Some? { assert !Hands(s, op, held.value); }
  }

  lemma StepApartIff(env: Env, s: Registry, op: Op)
    requires Inv(s) && Apart(env, s.names)
    ensures Apart(env, Step(env, s, op).0.names) <==> !Parts(env, s, op)
  {
    hide Inv, Step, Apart, Hands, Handover, Lookalikes;
    if n: Name :| Hands(s, op, n) {
      HandsOne(s, op, n);
      HandsMoves(env, s, op, n);
      HandoverApartIff(env, s, op.from, op.to, op.key, op.signer, op.now, n);
      assert forall m: Name :: Hands(s, op, m) ==> m == n;
    } else if op.HandOver? {
      HandsNone(env, s, op);
      ApartPart(env, s.names, Step(env, s, op).0.names);
    } else {
      StepApart(env, s, op);
    }
  }

  lemma HandsOne(s: Registry, op: Op, n: Name)
    requires Inv(s) && Hands(s, op, n)
    ensures op.HandOver? && op.to != op.from && IsCurrentOf(s.names, op.from, n)
    ensures forall m: Name :: Hands(s, op, m) ==> m == n
  {
    hide Inv;
    InvOne(s);
  }

  ghost predicate ApartAt(env: Env, ops: seq<Op>, i: nat)
    requires i <= |ops|
  {
    Apart(env, After(env, ops[..i]).names)
  }

  ghost predicate PartsAt(env: Env, ops: seq<Op>, i: nat)
    requires i < |ops|
  {
    Parts(env, After(env, ops[..i]), ops[i])
  }

  lemma NextApartIff(env: Env, ops: seq<Op>, i: nat)
    requires i < |ops| && (forall op :: op in ops ==> ClockOk(op)) && ApartAt(env, ops, i)
    ensures ApartAt(env, ops, i + 1) <==> !PartsAt(env, ops, i)
  {
    hide Apart, Parts, Step, Inv;
    assert ops[..i + 1][..i] == ops[..i];
    RunInv(env, ops[..i]);
    StepApartIff(env, After(env, ops[..i]), ops[i]);
  }

  /** No two rooms have names that look alike at any point of the first `k` operations. */
  ghost predicate ApartUpTo(env: Env, ops: seq<Op>, k: nat)
    requires k <= |ops|
  {
    forall i :: 0 <= i <= k ==> ApartAt(env, ops, i)
  }

  ghost predicate NonePart(env: Env, ops: seq<Op>, k: nat)
    requires k <= |ops|
  {
    forall i :: 0 <= i < k ==> !PartsAt(env, ops, i)
  }

  lemma UpToNext(env: Env, ops: seq<Op>, k: nat)
    requires k < |ops|
    ensures ApartUpTo(env, ops, k + 1) <==> ApartUpTo(env, ops, k) && ApartAt(env, ops, k + 1)
    ensures NonePart(env, ops, k + 1) <==> NonePart(env, ops, k) && !PartsAt(env, ops, k)
    ensures ApartUpTo(env, ops, k) ==> ApartAt(env, ops, k)
  {
    hide ApartAt, PartsAt;
  }

  lemma StartApart(env: Env, ops: seq<Op>)
    ensures ApartUpTo(env, ops, 0) && NonePart(env, ops, 0)
  {
    assert ops[..0] == [];
  }

  /** Rooms stay free of each other's lookalikes throughout a run exactly when no handover in it
      moves a name away from one that looks like it. */
  lemma {:induction false} ApartUpToIff(env: Env, ops: seq<Op>, k: nat)
    requires k <= |ops| && forall op :: op in ops ==> ClockOk(op)
    ensures ApartUpTo(env, ops, k) <==> NonePart(env, ops, k)
  {
    hide ApartAt, PartsAt, ApartUpTo, NonePart;
    if k == 0 {
      StartApart(env, ops);
    } else {
      ApartUpToIff(env, ops, k - 1);
      UpToNext(env, ops, k - 1);
      if ApartAt(env, ops, k - 1) { NextApartIff(env, ops, k - 1); }
    }
  }
}
