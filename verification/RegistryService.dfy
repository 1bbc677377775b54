/**
 What the channel registry grants, told without its clearing and sweeping: each answer to a claim,
 rename, handover, deletion or handle claim from the names and handles that still stand, and what the
 next request then finds.
 */
module RegistryService {
  import opened Options
  import opened MapSum
  import opened RegistrySpec
  import opened RegistrySafety
  import opened RegistryOwnership
  import opened RegistryClaims

  // ---------------------------------------------------------------- names that stand

  predicate Standing(names: Names, n: Name, now: int) { n in names && !names[n].Abandoned(now) }

  function StandingNames(names: Names, now: int): set<Name> { set n | n in names && Standing(names, n, now) }

  /** Another room has a standing name that looks like this one. */
  ghost predicate LookalikeStands(env: Env, names: Names, room: RoomId, name: Name, now: int) {
    exists n :: Standing(names, n, now) && env.skeleton(n) == env.skeleton(name) && names[n].room != room
  }

  /** The room goes by some other standing name. */
  ghost predicate NamedOtherwise(names: Names, room: RoomId, name: Name, now: int) {
    exists n :: n != name && Standing(names, n, now) && IsCurrentOf(names, room, n)
  }

  lemma SweptNames(s: Registry, now: int)
    requires Inv(s)
    ensures ReapedStale(s, now).names.Keys == StandingNames(s.names, now)
  {
    hide Inv, ReapedStale;
    ReapInv(s, now);
  }

  lemma RoomIff(s: Registry, now: int)
    requires Inv(s)
    ensures |MadeRoom(s, now).names| >= MAX_CHANNEL_NAMES <==> |StandingNames(s.names, now)| >= MAX_CHANNEL_NAMES
  {
    hide Inv, ReapedStale, StandingNames;
    SweptNames(s, now);
    AllOnRecord(s.names, now);
    var swept := ReapedStale(s, now).names;
    assert |swept| == |swept.Keys| && |s.names| == |s.names.Keys|;
  }

  lemma AllOnRecord(names: Names, now: int)
    ensures |StandingNames(names, now)| <= |names.Keys|
  {
    SubsetSize(StandingNames(names, now), names.Keys);
  }

  /** Clearing what a claim looks at leaves every standing name, and of those it looks at no other. */
  lemma ClearedStands(env: Env, s: Registry, room: RoomId, name: Name, now: int)
    requires Inv(s)
    ensures var names := Cleared(env, s.names, room, name, now);
            && Inv(s.(names := names))
            && StandingNames(names, now) == StandingNames(s.names, now)
            && (name in names <==> Standing(s.names, name, now)) && (name in names ==> names[name] == s.names[name])
            && LookalikeElsewhere(env, names, room, name) == LookalikeStands(env, s.names, room, name, now)
            && (forall n :: IsCurrentOf(names, room, n) <==> IsCurrentOf(s.names, room, n) && Standing(s.names, n, now))
  {
    hide Inv, Cleared;
    ClearedKeeps(env, s, room, name, now);
    var names := Cleared(env, s.names, room, name, now);
    if n :| Standing(s.names, n, now) && env.skeleton(n) == env.skeleton(name) && s.names[n].room != room {
      assert n in Lookalikes(env, names, name);
    }
  }

  // ---------------------------------------------------------------- claims

  /** A claim that cannot be granted, whatever room there is. */
  ghost predicate ClaimBlocked(env: Env, s: Registry, q: Ask) {
    || q.room in s.deleted
    || NamedOtherwise(s.names, q.room, q.name, q.now)
    || (if Standing(s.names, q.name, q.now) then !Bound(s, q.name, q.room, q.key)
        else LookalikeStands(env, s.names, q.room, q.name, q.now))
  }

  /** A claim is `Taken` if the room is deleted, goes by another name, or someone else has the name or
      one like it; `Full` if it would add a name to as many standing ones as there may be; and
      otherwise granted. */
  lemma ClaimAnswers(env: Env, s: Registry, q: Ask)
    requires Inv(s)
    ensures Claim(env, s, q).1 ==
            if ClaimBlocked(env, s, q) then Taken
            else if Standing(s.names, q.name, q.now) || |StandingNames(s.names, q.now)| < MAX_CHANNEL_NAMES then Ok
            else Full
  {
    if q.room !in s.deleted {
      var s1 := s.(names := Cleared(env, s.names, q.room, q.name, q.now));
      ClearedStands(env, s, q.room, q.name, q.now);
      hide Inv, Cleared, MadeRoom, LookalikeElsewhere, LookalikeStands;
      RoomIff(s1, q.now);
      ClaimClearedAnswers(env, s1, q);
      var held := CurrentOf(s1.names, q.room);
      if held.Some? && held.value != q.name { assert NamedOtherwise(s.names, q.room, q.name, q.now); }
      InvOne(s1);
    }
  }

  lemma ClaimClearedAnswers(env: Env, s: Registry, q: Ask)
    requires Inv(s)
    ensures var held := CurrentOf(s.names, q.room);
            ClaimCleared(env, s, q).1 ==
            if held.Some? && held.value != q.name then Taken
            else if q.name in s.names then if Bound(s, q.name, q.room, q.key) then Ok else Taken
            else if LookalikeElsewhere(env, s.names, q.room, q.name) then Taken
            else if |MadeRoom(s, q.now).names| >= MAX_CHANNEL_NAMES then Full
            else Ok
  {
    hide MadeRoom, LookalikeElsewhere;
  }

  /** A room asking again for the name it holds is always told Ok, and the name is refreshed. */
  lemma ReclaimRefreshes(env: Env, s: Registry, q: Ask)
    requires Inv(s) && Bound(s, q.name, q.room, q.key) && !s.names[q.name].Abandoned(q.now)
    ensures var (s', answer) := Claim(env, s, q);
            && answer == Ok && Bound(s', q.name, q.room, q.key) && s'.names[q.name].refreshedAt == q.now
            && s'.names[q.name].createdAt == s.names[q.name].createdAt
            && s'.names[q.name].nominee == s.names[q.name].nominee
  {
    assert s.names[q.name].deleted <==> q.room in s.deleted;
    forall n | IsCurrentOf(s.names, q.room, n) ensures n == q.name {
      assert IsCurrentOf(s.names, q.room, q.name);
    }
    hide Inv;
    ClaimAnswers(env, s, q);
    ClaimOkMeans(env, s, q);
  }

  /** A holder asking for some other name is told it is taken, and its own is refreshed; a stranger's
      asking on the room's behalf refreshes nothing. */
  lemma AskingForAnotherName(env: Env, s: Registry, q: Ask, n: Name)
    requires Inv(s) && IsCurrentOf(s.names, q.room, n) && !s.names[n].Abandoned(q.now) && n != q.name
    ensures var (s', answer) := Claim(env, s, q);
            && answer == Taken && n in s'.names
            && s'.names[n] == if s.names[n].key == q.key then s.names[n].(refreshedAt := q.now) else s.names[n]
  {
    assert s.names[n].deleted <==> q.room in s.deleted;
    hide Inv, Cleared;
    ClearedKeeps(env, s, q.room, q.name, q.now);
    OneOnly(s.(names := Cleared(env, s.names, q.room, q.name, q.now)), q.room, n);
  }

  /** A year of silence frees a name without a nominee: any room without a name may have it. */
  lemma SilentNameIsFree(env: Env, s: Registry, q: Ask)
    requires Inv(s) && q.name in s.names && s.names[q.name].IsCurrent() && s.names[q.name].nominee.None?
    requires s.names[q.name].refreshedAt > 0 && q.now - s.names[q.name].refreshedAt > 365 * 24 * 60 * 60
    requires q.room !in s.deleted && !NamedOtherwise(s.names, q.room, q.name, q.now)
    requires !LookalikeStands(env, s.names, q.room, q.name, q.now)
    requires |StandingNames(s.names, q.now)| < MAX_CHANNEL_NAMES
    ensures Claim(env, s, q).1 == Ok && Bound(Claim(env, s, q).0, q.name, q.room, q.key)
  {
    hide Inv;
    ClaimAnswers(env, s, q);
    ClaimOkMeans(env, s, q);
  }

  /** Thirty days after its room left it, a name is free in the same way. */
  lemma RetiredNameIsFree(env: Env, s: Registry, q: Ask)
    requires Inv(s) && q.name in s.names && s.names[q.name].IsRetired()
    requires q.now - s.names[q.name].retiredAt > 30 * 24 * 60 * 60
    requires q.room !in s.deleted && !NamedOtherwise(s.names, q.room, q.name, q.now)
    requires !LookalikeStands(env, s.names, q.room, q.name, q.now)
    requires |StandingNames(s.names, q.now)| < MAX_CHANNEL_NAMES
    ensures Claim(env, s, q).1 == Ok && Bound(Claim(env, s, q).0, q.name, q.room, q.key)
  {
    hide Inv;
    ClaimAnswers(env, s, q);
    ClaimOkMeans(env, s, q);
  }

  // ---------------------------------------------------------------- renames

  /** The room left this name itself and may have it back. */
  predicate LeftByIt(s: Registry, n: Name, room: RoomId, key: Key) {
    n in s.names && !s.names[n].deleted && s.names[n].retiredAt != 0 && s.names[n].room == room && s.names[n].key == key
  }

  /** A room's rename is refused to another key, within a day of its last, for a name someone else has
      or one like it, or for want of room; and otherwise granted. */
  lemma RenameAnswers(env: Env, s: Registry, q: Ask, n: Name)
    requires Inv(s) && IsCurrentOf(s.names, q.room, n) && !s.names[n].Abandoned(q.now) && n != q.name
    ensures var r := s.names[n];
            Rename(env, s, q).1 ==
            if r.key != q.key then Forbidden
            else if r.renamedAt > 0 && q.now < r.renamedAt + 24 * 60 * 60 then RenameTooSoon
            else if Standing(s.names, q.name, q.now) then if LeftByIt(s, q.name, q.room, q.key) then Ok else Taken
            else if LookalikeStands(env, s.names, q.room, q.name, q.now) then Taken
            else if |StandingNames(s.names, q.now)| < MAX_CHANNEL_NAMES then Ok else Full
  {
    assert s.names[n].deleted <==> q.room in s.deleted;
    var s1 := s.(names := Cleared(env, s.names, q.room, q.name, q.now));
    ClearedStands(env, s, q.room, q.name, q.now);
    assert IsCurrentOf(s1.names, q.room, n);
    OneOnly(s1, q.room, n);
    hide Inv, MadeRoom, LookalikeElsewhere, LookalikeStands, RenameFrom;
    ClearedKeeps(env, s, q.room, q.name, q.now);
    RoomIff(s1, q.now);
    RenameFromAnswers(env, s1, n, q);
  }

  lemma RenameFromAnswers(env: Env, s: Registry, from: Name, q: Ask)
    requires Inv(s) && IsCurrentOf(s.names, q.room, from) && !s.names[from].Abandoned(q.now)
    ensures var r := s.names[from];
            RenameFrom(env, s, from, q).1 ==
            if r.key != q.key then Forbidden
            else if r.renamedAt > 0 && q.now < r.renamedAt + 24 * 60 * 60 then RenameTooSoon
            else if q.name in s.names then if LeftByIt(s, q.name, q.room, q.key) then Ok else Taken
            else if LookalikeElsewhere(env, s.names, q.room, q.name) then Taken
            else if |MadeRoom(s, q.now).names| < MAX_CHANNEL_NAMES then Ok else Full
  {
    hide Inv, MadeRoom, LookalikeElsewhere, SurplusReleased, Moved;
    MakeRoomInv(s, q.now);
  }

  /** After a rename the next one is refused for a day and no longer. */
  lemma RenamedForADay(env: Env, s: Registry, q: Ask, n: Name, next: Ask)
    requires Inv(s) && q.now > 0
    requires IsCurrentOf(s.names, q.room, n) && !s.names[n].Abandoned(q.now) && n != q.name
    requires Rename(env, s, q).1 == Ok
    requires next.room == q.room && next.key == q.key && next.name != q.name
    requires Standing(Rename(env, s, q).0.names, q.name, next.now)
    ensures Rename(env, Rename(env, s, q).0, next).1 == RenameTooSoon <==> next.now < q.now + 24 * 60 * 60
  {
    hide Inv, Rename;
    RenameOkMeans(env, s, q, n);
    RenameInv(env, s, q);
    RenameAnswers(env, Rename(env, s, q).0, next, q.name);
  }

  // ---------------------------------------------------------------- handovers and nominees

  /** A handover of a room's name to a room without one goes through exactly when its key signed, or
      its nominee did once the days it published had passed in silence. */
  lemma HandoverGrantedIff(env: Env, s: Registry, from: RoomId, to: RoomId, key: Key, signer: Key, now: int, n: Name)
    requires Inv(s) && IsCurrentOf(s.names, from, n) && to != from && to !in s.deleted
    requires forall m :: !IsCurrentOf(s.names, to, m)
    ensures var (s', answer) := Handover(env, s, from, to, key, signer, now);
            var r := s.names[n];
            && (answer == Ok <==>
                  || r.key == signer
                  || (r.nominee == Some(signer) && r.claimAfterDays > 0
                      && now >= r.refreshedAt + r.claimAfterDays * (24 * 60 * 60)))
            && (answer == Ok ==>
                  n in s'.names && s'.names[n] == r.(room := to, key := key, refreshedAt := now, nominee := None,
                                                     claimAfterDays := 0, handedOverFrom := Some(from),
                                                     inheritor := s'.names[n].inheritor))
            && (answer != Ok ==> answer == Forbidden && s' == s)
            && s'.names - {n} == s.names - {n}
  {
    assert s.names[n].deleted <==> from in s.deleted;
    hide Inv;
    OneOnly(s, from, n);
  }

  /** A nomination is honoured: after it, that key may take the name over once the days asked for have
      passed in silence, and not before. */
  lemma NominationHonoured(env: Env, s: Registry, room: RoomId, key: Key, nominee: Key, days: nat, n: Name,
                           to: RoomId, newKey: Key, now: int)
    requires Inv(s) && Bound(s, n, room, key) && nominee != key && 7 <= days <= 365
    requires to != room && to !in s.deleted && forall m :: !IsCurrentOf(s.names, to, m)
    ensures var (s1, answer) := Nominate(s, room, key, Some(nominee), days, true);
            && answer == Ok
            && (Handover(env, s1, room, to, newKey, nominee, now).1 == Ok <==>
                  now >= s.names[n].refreshedAt + days * (24 * 60 * 60))
  {
    assert IsCurrentOf(s.names, room, n);
    hide Inv;
    OneOnly(s, room, n);
    NominateInv(s, room, key, Some(nominee), days, true);
    var s1 := Nominate(s, room, key, Some(nominee), days, true).0;
    forall m ensures !IsCurrentOf(s1.names, to, m) { assert !IsCurrentOf(s.names, to, m); }
    HandoverGrantedIff(env, s1, room, to, newKey, nominee, now, n);
  }

  /** A nomination withdrawn gives no one but the holder a say. */
  lemma WithdrawnNominee(env: Env, s: Registry, room: RoomId, key: Key, n: Name, to: RoomId, newKey: Key, signer: Key,
                         now: int)
    requires Inv(s) && Bound(s, n, room, key) && signer != key
    requires to != room && to !in s.deleted && forall m :: !IsCurrentOf(s.names, to, m)
    ensures var (s1, answer) := Nominate(s, room, key, None, 0, true);
            answer == Ok && Handover(env, s1, room, to, newKey, signer, now).1 == Forbidden
  {
    assert IsCurrentOf(s.names, room, n);
    hide Inv;
    OneOnly(s, room, n);
    NominateInv(s, room, key, None, 0, true);
    var s1 := Nominate(s, room, key, None, 0, true).0;
    forall m ensures !IsCurrentOf(s1.names, to, m) { assert !IsCurrentOf(s.names, to, m); }
    HandoverGrantedIff(env, s1, room, to, newKey, signer, now, n);
  }

  /** A nomination that names no valid key, or a time out of bounds, changes nothing. */
  lemma BadNomination(s: Registry, room: RoomId, key: Key, nominee: Key, days: nat, valid: bool)
    requires days > 0 && (!valid || days < 7 || days > 365)
    ensures Nominate(s, room, key, Some(nominee), days, valid) == (s, InvalidName)
  {
  }

  /** Only the room's own key nominates. */
  lemma ForeignNomination(s: Registry, room: RoomId, key: Key, nominee: Option<Key>, days: nat, n: Name)
    requires Inv(s) && IsCurrentOf(s.names, room, n) && s.names[n].key != key
    requires nominee.None? || days == 0 || 7 <= days <= 365
    ensures Nominate(s, room, key, nominee, days, true) == (s, Forbidden)
  {
    hide Inv;
    OneOnly(s, room, n);
  }

  /** A handover spends the nomination: after it only the new key can hand the name on. */
  lemma HandoverSpendsNomination(env: Env, s: Registry, from: RoomId, to: RoomId, key: Key, signer: Key, now: int,
                                 n: Name, third: RoomId, thirdKey: Key, other: Key, later: int)
    requires Inv(s) && IsCurrentOf(s.names, from, n) && to != from && to !in s.deleted
    requires (forall m :: !IsCurrentOf(s.names, to, m)) && Handover(env, s, from, to, key, signer, now).1 == Ok
    requires third != to && third !in s.deleted && other != key
    requires third == from || forall m :: !IsCurrentOf(s.names, third, m)
    ensures var s' := Handover(env, s, from, to, key, signer, now).0;
            Handover(env, s', to, third, thirdKey, other, later).1 == Forbidden
  {
    HandoverGrantedIff(env, s, from, to, key, signer, now, n);
    HandoverInv(env, s, from, to, key, signer, now);
    var s' := Handover(env, s, from, to, key, signer, now).0;
    assert s.names[n].deleted <==> from in s.deleted;
    hide Inv;
    OneOnly(s, from, n);
    assert s'.deleted == s.deleted && !s'.names[n].HasNominee();
    InvOne(s);
    forall m ensures !IsCurrentOf(s'.names, third, m) {
      assert m != n ==> (m in s'.names <==> m in s'.names - {n}) && (m in s.names <==> m in s.names - {n});
      assert m != n ==> (IsCurrentOf(s'.names, third, m) <==> IsCurrentOf(s.names, third, m));
    }
    HandoverGrantedIff(env, s', to, third, thirdKey, other, later, n);
  }

  /** A handover sent again, its answer lost, is told Ok and leaves the name where it went; it counts as
      a sign of life only from the key the new room is named after, or the nominee who took it over. */
  lemma HandoverResent(env: Env, s: Registry, from: RoomId, to: RoomId, key: Key, signer: Key, now: int, n: Name,
                       later: int)
    requires Inv(s) && IsCurrentOf(s.names, from, n) && to != from && to !in s.deleted
    requires (forall m :: !IsCurrentOf(s.names, to, m)) && Handover(env, s, from, to, key, signer, now).1 == Ok
    ensures var s' := Handover(env, s, from, to, key, signer, now).0;
            var (s'', answer) := Handover(env, s', from, to, key, signer, later);
            && answer == Ok && Bound(s'', n, to, key)
            && s''.names[n].refreshedAt == if env.roomOf(signer) == Some(to) || s.names[n].NomineeMay(signer, now)
                                           then later else now
  {
    HandoverGrantedIff(env, s, from, to, key, signer, now, n);
    HandoverInv(env, s, from, to, key, signer, now);
    assert s.names[n].deleted <==> from in s.deleted;
    var s' := Handover(env, s, from, to, key, signer, now).0;
    hide Inv;
    OneOnly(s, from, n);
    assert s'.deleted == s.deleted;
    OneOnly(s', to, n);
  }

  // ---------------------------------------------------------------- deletion

  /** A deletion is refused exactly when a record of the room is under another key, or there is none and
      no tombstone fits; and otherwise the room is deleted with every record it has, and no other. */
  lemma DeleteAnswers(s: Registry, room: RoomId, key: Key)
    ensures var (s', answer) := Delete(s, room, key);
            && (answer == Forbidden <==> exists n :: n in s.names && s.names[n].room == room && s.names[n].key != key)
            && (answer == Full <==>
                  && (forall n :: n in s.names ==> s.names[n].room != room)
                  && room !in s.deleted && |s.deleted| >= MAX_DELETED)
            && (answer == Ok || answer == Full || answer == Forbidden)
            && (answer != Ok ==> s' == s)
            && (answer == Ok ==>
                  && s'.deleted == s.deleted + {room} && s'.names.Keys == s.names.Keys
                  && (forall n :: n in s.names ==>
                        s'.names[n] == if s.names[n].room == room then s.names[n].(deleted := true) else s.names[n])
                  && s'.handles == s.handles && s'.open == s.open)
  {
    var held := NamesOf(s.names, room);
    assert forall n :: n in held <==> n in s.names && s.names[n].room == room;
    if held == {} {
      assert Buried(s.names, room) == s.names;
      if room in s.deleted { assert s.deleted + {room} == s.deleted; }
    }
  }

  /** A deleted room gets no name again: not by claim, rename or handover, nor can it hand one on. */
  lemma DeletedRoomIsRefused(env: Env, s: Registry, room: RoomId, key: Key, q: Ask, other: RoomId, k: Key, signer: Key,
                             now: int)
    requires Delete(s, room, key).1 == Ok && q.room == room && other != room
    ensures var s' := Delete(s, room, key).0;
            && Claim(env, s', q) == (s', Taken) && Rename(env, s', q) == (s', Taken)
            && Handover(env, s', room, other, k, signer, now) == (s', Taken)
            && Handover(env, s', other, room, k, signer, now) == (s', Taken)
  {
    DeleteAnswers(s, room, key);
    hide Delete;
  }

  // ---------------------------------------------------------------- handles

  /** The key has shown itself within the year. */
  predicate Active(h: Handles, key: Key, now: int) { key in h.activity && now - h.activity[key] <= 365 * 24 * 60 * 60 }

  function ActiveHandles(h: Handles, now: int): set<Handle> { set u | u in h.holders && Active(h, h.holders[u], now) }

  /** Someone else holds the handle and is active. */
  predicate HeldByOther(h: Handles, key: Key, handle: Handle, now: int) {
    handle in h.holders && h.holders[handle] != key && Active(h, h.holders[handle], now)
  }

  lemma IdleIff(h: Handles, handle: Handle, now: int)
    requires HandlesInv(h) && handle in h.holders
    ensures IsIdle(h, h.holders[handle], now) <==> !Active(h, h.holders[handle], now)
  {
    assert h.holders[handle] in h.holders.Values;
  }

  lemma SweptHandles(s: Registry, now: int)
    requires Inv(s)
    ensures ReapedStale(s, now).handles.holders.Keys == ActiveHandles(s.handles, now)
  {
    hide NamesInv, ReapedNames;
    NothingToGrandfather(s.handles, now);
    forall u | u in s.handles.holders
      ensures IsIdle(s.handles, s.handles.holders[u], now) <==> !Active(s.handles, s.handles.holders[u], now)
    {
      IdleIff(s.handles, u, now);
    }
  }

  /** A handle claim is `Taken` only by another key that is not idle, `Full` only to a key without a
      handle asking for a free one while as many active handles are held as there may be; and
      otherwise granted. */
  lemma HandleAnswers(s: Registry, key: Key, handle: Handle, now: int)
    requires Inv(s)
    ensures ClaimHandle(s, key, handle, now).1 ==
            if HeldByOther(s.handles, key, handle, now) then Taken
            else if handle !in s.handles.holders && key !in s.handles.holders.Values
                    && |ActiveHandles(s.handles, now)| >= MAX_USERNAMES then Full
            else Ok
  {
    var h := s.handles;
    if key in h.holders.Values {
      HolderNeverLoses(s, key, handle, now);
      if HeldByOther(h, key, handle, now) { assert h.holders[handle] in h.holders.Values; }
      HolderAnswers(s, key, handle, now);
    } else {
      NewcomerAnswers(s, key, handle, now);
    }
  }

  lemma HolderAnswers(s: Registry, key: Key, handle: Handle, now: int)
    requires Inv(s) && key in s.handles.holders.Values
    ensures ClaimHandle(s, key, handle, now).1 == Taken <==> HeldByOther(s.handles, key, handle, now)
  {
    hide NamesInv, ReapedStale;
    if handle in s.handles.holders { IdleIff(s.handles, handle, now); }
  }

  lemma NewcomerAnswers(s: Registry, key: Key, handle: Handle, now: int)
    requires Inv(s) && key !in s.handles.holders.Values
    ensures ClaimHandle(s, key, handle, now).1 ==
            if HeldByOther(s.handles, key, handle, now) then Taken
            else if handle !in s.handles.holders && |ActiveHandles(s.handles, now)| >= MAX_USERNAMES then Full
            else Ok
  {
    hide NamesInv, ReapedStale;
    var h := s.handles;
    if handle in h.holders {
      IdleIff(h, handle, now);
      assert h.holders[handle] in h.holders.Values;
      FewerHandles(h, {handle});
      var h1 := WithoutHandles(h, {handle});
      assert h1.holders.Keys == h.holders.Keys - {handle};
      HandleFound(h1, key);
      WithoutValues(h, {handle});
    } else {
      HandleFound(h, key);
      SweptHandles(s, now);
      SubsetSize(ActiveHandles(h, now), h.holders.Keys);
      assert |ReapedStale(s, now).handles.holders| == |ReapedStale(s, now).handles.holders.Keys|;
    }
  }

  lemma WithoutValues(h: Handles, gone: set<Handle>)
    ensures WithoutHandles(h, gone).holders.Values <= h.holders.Values
  {
    var holders := WithoutHandles(h, gone).holders;
    forall k | k in holders.Values ensures k in h.holders.Values {
      var u :| u in holders && holders[u] == k;
      assert u in h.holders && h.holders[u] == k;
    }
  }

  /** A claim told Ok leaves the key with that handle, active now, and with no other. */
  lemma HandleGranted(s: Registry, key: Key, handle: Handle, now: int)
    requires Inv(s) && ClaimHandle(s, key, handle, now).1 == Ok
    ensures var h := ClaimHandle(s, key, handle, now).0.handles;
            && handle in h.holders && h.holders[handle] == key
            && key in h.activity && h.activity[key] == now
            && forall u :: u in h.holders && h.holders[u] == key ==> u == handle
  {
    HandleInv(s, key, handle, now);
    hide NamesInv, ReapedStale, WithoutHandles;
  }
}
