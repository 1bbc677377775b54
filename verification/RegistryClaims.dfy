/**
 What each registry operation does when it succeeds, and why a claim may free only the
 quiet names that decide it: its answer is the one it would get with every quiet name freed.
 */
module RegistryClaims {
  import opened Options
  import opened MapSum
  import opened RegistrySpec
  import opened RegistrySafety
  import opened RegistryOwnership

  // ---------------------------------------------------------------- what success means

  /** A claim that succeeds leaves the room holding the name, refreshed now; a holding it already
      had keeps its seniority, nominee and history, any other starts anew. */
  lemma ClaimOkMeans(env: Env, s: Registry, q: Ask)
    requires Inv(s)
    requires Claim(env, s, q).1 == Ok
    ensures var s' := Claim(env, s, q).0;
            && Bound(s', q.name, q.room, q.key)
            && s'.names[q.name] == if Bound(s, q.name, q.room, q.key) && !s.names[q.name].Abandoned(q.now)
                                 then s.names[q.name].(private := q.private, display := q.display, refreshedAt := q.now)
                                 else Record(room := q.room, key := q.key, private := q.private, deleted := false,
                                             display := q.display, refreshedAt := q.now, nominee := None,
                                             claimAfterDays := 0, createdAt := q.now, handedOverFrom := None,
                                             retiredAt := 0, renamedAt := 0, inheritor := None)
  {
    hide Inv, MadeRoom, LookalikeElsewhere, Cleared;
    ClearedKeeps(env, s, q.room, q.name, q.now);
    MakeRoomInv(s.(names := Cleared(env, s.names, q.room, q.name, q.now)), q.now);
  }

  /** A rename that succeeds gives the room the new name with the old one's seniority, nominee and
      history, and retires the old one; it takes the room's key and a day since the last. */
  lemma RenameOkMeans(env: Env, s: Registry, q: Ask, n: Name)
    requires Inv(s) && q.now > 0
    requires IsCurrentOf(s.names, q.room, n) && !s.names[n].Abandoned(q.now) && n != q.name
    requires Rename(env, s, q).1 == Ok
    ensures var s' := Rename(env, s, q).0;
            && s.names[n].key == q.key
            && (s.names[n].renamedAt <= 0 || q.now - s.names[n].renamedAt >= RENAME_INTERVAL_SECS)
            && Bound(s', q.name, q.room, q.key)
            && s'.names[q.name] == s.names[n].(private := q.private, display := q.display, refreshedAt := q.now,
                                               renamedAt := q.now)
            && (n in s'.names ==> SameButStamp(s.names[n].(retiredAt := q.now), s'.names[n]))
  {
    hide Inv, Cleared, RenameFrom;
    ClearedKeeps(env, s, q.room, q.name, q.now);
    var s1 := s.(names := Cleared(env, s.names, q.room, q.name, q.now));
    OneOnly(s1, q.room, n);
    RenameFromOk(env, s1, n, q);
  }

  lemma RenameFromOk(env: Env, s: Registry, from: Name, q: Ask)
    requires Inv(s)
    requires IsCurrentOf(s.names, q.room, from) && !s.names[from].Abandoned(q.now) && from != q.name
    requires RenameFrom(env, s, from, q).1 == Ok
    ensures var s' := RenameFrom(env, s, from, q).0;
            && s.names[from].key == q.key
            && (s.names[from].renamedAt <= 0 || q.now - s.names[from].renamedAt >= RENAME_INTERVAL_SECS)
            && q.name in s'.names && s'.names[q.name] == Renamed(s.names[from], q)
            && (from in s'.names ==> SameButStamp(s.names[from].(retiredAt := q.now), s'.names[from]))
            && (q.now == 0 ==> from in s'.names)
  {
    hide Inv, MadeRoom, LookalikeElsewhere, SurplusReleased;
    MakeRoomInv(s, q.now);
    var s' := if q.name in s.names then s else MadeRoom(s, q.now);
    SurplusInv(Moved(s'.names, from, q), q.room);
  }

  /** With the clock at 1970 a rename leaves its room two current names; at any later reading every
      room still has at most one. */
  lemma RenameKeepsOneIff(env: Env, s: Registry, q: Ask, n: Name)
    requires Inv(s) && q.now >= 0
    requires IsCurrentOf(s.names, q.room, n) && !s.names[n].Abandoned(q.now) && n != q.name
    requires Rename(env, s, q).1 == Ok
    ensures OneCurrent(Rename(env, s, q).0.names) <==> q.now > 0
  {
    hide Inv, Cleared, RenameFrom;
    if q.now > 0 {
      hide Rename;
      RenameInv(env, s, q);
      InvOne(Rename(env, s, q).0);
    } else {
      ClearedKeeps(env, s, q.room, q.name, q.now);
      var s1 := s.(names := Cleared(env, s.names, q.room, q.name, q.now));
      OneOnly(s1, q.room, n);
      RenameFromOk(env, s1, n, q);
      var names := Rename(env, s, q).0.names;
      assert IsCurrentOf(names, q.room, n) && IsCurrentOf(names, q.room, q.name);
    }
  }

  /** A rename read at the very start of 1970 that gives the room another name. */
  ghost predicate MovesAt1970(env: Env, s: Registry, op: Op) {
    && op.RenameName? && op.now == 0 && s.open && op.name.Some?
    && var q := Ask(op.room, op.key, op.name.value, op.display, op.private, 0);
       Rename(env, s, q).1 == Ok && exists n :: n != q.name && Holds(s, op.room, n)
  }

  predicate Holds(s: Registry, room: RoomId, n: Name) { IsCurrentOf(s.names, room, n) && !s.names[n].Abandoned(0) }

  lemma RenameFromRefusedInv(env: Env, s: Registry, from: Name, q: Ask)
    requires Inv(s) && IsCurrentOf(s.names, q.room, from) && RenameFrom(env, s, from, q).1 != Ok
    ensures Inv(RenameFrom(env, s, from, q).0)
  {
    hide Inv, MadeRoom, LookalikeElsewhere, SurplusReleased;
    MakeRoomInv(s, q.now);
  }

  /** At that reading a rename that moves nothing keeps everything. */
  lemma RenameAtStart(env: Env, s: Registry, q: Ask)
    requires Inv(s) && q.now == 0
    requires Rename(env, s, q).1 == Ok ==> forall n :: Holds(s, q.room, n) ==> n == q.name
    ensures Inv(Rename(env, s, q).0)
  {
    hide Inv, Cleared, Claim, RenameFrom;
    if q.room !in s.deleted {
      ClearedKeeps(env, s, q.room, q.name, q.now);
      var s1 := s.(names := Cleared(env, s.names, q.room, q.name, q.now));
      var held := CurrentOf(s1.names, q.room);
      if held.None? || held.value == q.name {
        ClaimInv(env, s1, q);
      } else {
        assert Holds(s, q.room, held.value);
        RenameFromRefusedInv(env, s1, held.value, q);
      }
    }
  }

  lemma StepOneIff(env: Env, s: Registry, op: Op)
    requires Inv(s) && (op.RenameName? ==> op.now >= 0)
    ensures OneCurrent(Step(env, s, op).0.names) <==> !MovesAt1970(env, s, op)
    ensures !MovesAt1970(env, s, op) ==> Inv(Step(env, s, op).0)
  {
    hide Inv, OneCurrent, Rename;
    if ClockOk(op) {
      hide Step;
      StepInv(env, s, op);
      InvOne(Step(env, s, op).0);
    } else if s.open && op.name.Some? {
      var q := Ask(op.room, op.key, op.name.value, op.display, op.private, 0);
      if MovesAt1970(env, s, op) {
        var n :| n != q.name && Holds(s, op.room, n);
        RenameKeepsOneIff(env, s, q, n);
      } else {
        RenameAtStart(env, s, q);
        InvOne(Step(env, s, op).0);
      }
    } else {
      InvOne(s);
    }
  }

  /** At every point of the first `k` operations each room has at most one current name. */
  ghost predicate OneUpTo(env: Env, ops: seq<Op>, k: nat)
    requires k <= |ops|
  {
    forall i :: 0 <= i <= k ==> OneCurrent(After(env, ops[..i]).names)
  }

  ghost predicate NoneMoves(env: Env, ops: seq<Op>, k: nat)
    requires k <= |ops|
  {
    forall i :: 0 <= i < k ==> !MovesAt1970(env, After(env, ops[..i]), ops[i])
  }

  lemma OneUpToNext(env: Env, ops: seq<Op>, k: nat)
    requires k < |ops|
    ensures OneUpTo(env, ops, k + 1) <==> OneUpTo(env, ops, k) && OneCurrent(After(env, ops[..k + 1]).names)
    ensures NoneMoves(env, ops, k + 1) <==> NoneMoves(env, ops, k) && !MovesAt1970(env, After(env, ops[..k]), ops[k])
  {
    hide After, OneCurrent, MovesAt1970;
  }

  lemma OneAtStart(env: Env, ops: seq<Op>)
    ensures OneUpTo(env, ops, 0) && NoneMoves(env, ops, 0) && Inv(After(env, ops[..0]))
  {
    assert ops[..0] == [];
    RunInv(env, ops[..0]);
  }

  /** Throughout a run every room has at most one current name exactly when no rename in it moves a
      name at the very start of 1970, and then the whole invariant holds. */
  lemma {:induction false} OneUpToIff(env: Env, ops: seq<Op>, k: nat)
    requires k <= |ops| && forall op :: op in ops && op.RenameName? ==> op.now >= 0
    ensures OneUpTo(env, ops, k) <==> NoneMoves(env, ops, k)
    ensures NoneMoves(env, ops, k) ==> Inv(After(env, ops[..k]))
  {
    hide OneUpTo, NoneMoves, Inv, MovesAt1970, OneCurrent, Step;
    if k == 0 {
      OneAtStart(env, ops);
    } else {
      OneUpToIff(env, ops, k - 1);
      OneUpToNext(env, ops, k - 1);
      assert ops[..k][..k - 1] == ops[..k - 1];
      if NoneMoves(env, ops, k - 1) { StepOneIff(env, After(env, ops[..k - 1]), ops[k - 1]); }
    }
  }

  // ---------------------------------------------------------------- runs where it shows

  /** A registry holding one record. */
  function Holding(n: Name, r: Record): Registry { EMPTY.(names := map[n := r]) }

  lemma FirstClaim(env: Env, q: Ask)
    ensures Claim(env, EMPTY, q) == (Holding(q.name, NewRecord(q)), Ok)
  {
    assert Cleared(env, EMPTY.names, q.room, q.name, q.now) == map[];
    assert EMPTY.names[q.name := NewRecord(q)] == map[q.name := NewRecord(q)];
  }

  lemma FirstRename(env: Env, n: Name, r: Record, q: Ask)
    requires r.IsCurrent() && r.room == q.room && r.key == q.key && r.renamedAt == 0 && n != q.name
    requires !r.Abandoned(q.now)
    ensures Rename(env, Holding(n, r), q) == (EMPTY.(names := Moved(map[n := r], n, q)), Ok)
  {
    hide ReapedStale;
    var s := Holding(n, r);
    assert Cleared(env, s.names, q.room, q.name, q.now) == s.names;
    assert IsCurrentOf(s.names, q.room, n);
    assert CurrentOf(s.names, q.room) == Some(n);
    assert |s.names| == 1;
    var moved := Moved(s.names, n, q);
    assert RetiredOf(moved, q.room) <= {n};
    SubsetSize(RetiredOf(moved, q.room), {n});
  }

  lemma TwoOps(env: Env, a: Op, b: Op)
    ensures After(env, [a, b]) == Step(env, Step(env, EMPTY, a).0, b).0
  {
    assert [a, b][..1] == [a] && [a][..0] == [];
    assert After(env, []) == EMPTY;
  }

  lemma OneOp(env: Env, a: Op)
    ensures After(env, [a]) == Step(env, EMPTY, a).0
  {
    assert [a][..0] == [];
  }

  /** Claimed in 1970 and five seconds, renamed with the clock back at its start. */
  lemma RenameAt1970(env: Env, room: RoomId, key: Key, a: Name, b: Name)
    requires a != b
    ensures !OneCurrent(After(env, [ClaimName(room, key, Some(a), "", false, 5),
                                    RenameName(room, key, Some(b), "", false, 0)]).names)
  {
    hide Claim, Rename, Inv;
    var q, q' := Ask(room, key, a, "", false, 5), Ask(room, key, b, "", false, 0);
    var claim, rename := ClaimName(room, key, Some(a), "", false, 5), RenameName(room, key, Some(b), "", false, 0);
    TwoOps(env, claim, rename);
    OneOp(env, claim);
    RunInv(env, [claim]);
    FirstClaim(env, q);
    FirstRename(env, a, NewRecord(q), q');
    RenameKeepsOneIff(env, Holding(a, NewRecord(q)), q', a);
  }

  lemma HandedApart(env: Env, s: Registry, room: RoomId, to: RoomId, key: Key, newKey: Key, a: Name, b: Name)
    requires Inv(s) && s.deleted == {} && s.names.Keys == {a, b} && room != to
    requires a != b && env.skeleton(a) == env.skeleton(b)
    requires s.names[a].room == room && IsCurrentOf(s.names, room, b) && s.names[b].key == key
    ensures !Apart(env, Handover(env, s, room, to, newKey, key, 7).0.names)
  {
    hide Inv;
    OneOnly(s, room, b);
    assert CurrentOf(s.names, to).None?;
    assert a in Lookalikes(env, s.names, b);
    HandoverApartIff(env, s, room, to, newKey, key, 7, b);
  }

  /** Renamed to a lookalike of its own name, then handed over: the name left behind and the one
      moved look alike in two rooms. */
  lemma HandoverSplitsLookalikes(env: Env, room: RoomId, to: RoomId, key: Key, newKey: Key, a: Name, b: Name)
    requires a != b && env.skeleton(a) == env.skeleton(b) && room != to
    ensures !Apart(env, After(env, [ClaimName(room, key, Some(a), "", false, 5),
                                    RenameName(room, key, Some(b), "", false, 6),
                                    HandOver(room, to, newKey, key, true, 7)]).names)
  {
    hide Claim, Rename, Inv, Handover, Apart;
    var q, q' := Ask(room, key, a, "", false, 5), Ask(room, key, b, "", false, 6);
    var claim, rename := ClaimName(room, key, Some(a), "", false, 5), RenameName(room, key, Some(b), "", false, 6);
    var handOver := HandOver(room, to, newKey, key, true, 7);
    TwoOps(env, claim, rename);
    RunInv(env, [claim, rename]);
    FirstClaim(env, q);
    FirstRename(env, a, NewRecord(q), q');
    var s := After(env, [claim, rename]);
    assert s == EMPTY.(names := Moved(map[a := NewRecord(q)], a, q'));
    assert [claim, rename, handOver][..2] == [claim, rename];
    HandedApart(env, s, room, to, key, newKey, a, b);
  }

  // ---------------------------------------------------------------- freeing only what decides

  /** Every quiet name freed. */
  function AllFreed(names: Names, now: int): Names { names - Gone(names, names.Keys, now) }

  /** Records a sweep now would make the same. */
  predicate Alike(r: Record, r': Record, now: int) { Stamped(r, now) == Stamped(r', now) }

  lemma AlikeMeans(r: Record, r': Record, now: int)
    requires Alike(r, r', now)
    ensures r' == r.(refreshedAt := r'.refreshedAt) && (r'.Abandoned(now) <==> r.Abandoned(now))
  {
    StampKeeps(r, now);
    StampKeeps(r', now);
  }

  /** The two agree on every name that is not quiet, stamps apart that a sweep would put in. */
  ghost predicate SameButQuiet(names: Names, freed: Names, now: int) {
    && freed.Keys <= names.Keys
    && (forall n :: n in freed ==> Alike(freed[n], names[n], now) && !names[n].Abandoned(now))
    && (forall n :: n in names && !names[n].Abandoned(now) ==> n in freed)
  }

  lemma FreedIsSame(names: Names, now: int)
    ensures SameButQuiet(names, AllFreed(names, now), now)
  {
  }

  /** Nothing quiet is left among what the claim looks at. */
  ghost predicate Settled(env: Env, names: Names, room: RoomId, name: Name, now: int) {
    forall n :: n in names && (n == name || names[n].room == room || env.skeleton(n) == env.skeleton(name)) ==>
      !names[n].Abandoned(now)
  }

  lemma ClearedSame(env: Env, s: Registry, freed: Registry, room: RoomId, name: Name, now: int)
    requires Inv(s) && Inv(freed) && SameButQuiet(s.names, freed.names, now)
    ensures var names, names' := Cleared(env, s.names, room, name, now), Cleared(env, freed.names, room, name, now);
            && SameButQuiet(names, names', now)
            && Settled(env, names, room, name, now)
  {
    hide Inv, Cleared, Alike;
    FreedQuiet(s.names, freed.names, now);
    ClearedKeeps(env, s, room, name, now);
    ClearedKeeps(env, freed, room, name, now);
  }

  lemma SameCurrent(env: Env, names: Names, freed: Names, room: RoomId, name: Name, now: int)
    requires SameButQuiet(names, freed, now) && Settled(env, names, room, name, now) && OneCurrent(names)
    ensures CurrentOf(names, room) == CurrentOf(freed, room)
    ensures name in names <==> name in freed
    ensures LookalikeElsewhere(env, names, room, name) == LookalikeElsewhere(env, freed, room, name)
  {
    hide OneCurrent, Alike;
    forall n | n in freed ensures freed[n].room == names[n].room && freed[n].IsCurrent() == names[n].IsCurrent() {
      AlikeMeans(freed[n], names[n], now);
    }
    forall n ensures IsCurrentOf(names, room, n) <==> IsCurrentOf(freed, room, n) {
      if n in names && names[n].room == room { assert !names[n].Abandoned(now); }
    }
    assert forall n :: n in Lookalikes(env, names, name) <==> n in Lookalikes(env, freed, name);
    CurrentSame(names, freed, room);
  }

  lemma CurrentSame(names: Names, freed: Names, room: RoomId)
    requires OneCurrent(names) && forall n :: IsCurrentOf(names, room, n) <==> IsCurrentOf(freed, room, n)
    ensures CurrentOf(names, room) == CurrentOf(freed, room)
  {
    hide IsCurrentOf;
  }

  /** What making room leaves when it sweeps: the names not quiet, as a sweep leaves them. */
  lemma SweptIsSame(s: Registry, now: int)
    requires Inv(s) && |s.names| >= MAX_CHANNEL_NAMES
    ensures SameButQuiet(s.names, MadeRoom(s, now).names, now)
  {
    hide Inv;
    ReapInv(s, now);
    var names := MadeRoom(s, now).names;
    forall n | n in names ensures Alike(names[n], s.names[n], now) { StampKeeps(s.names[n], now); }
  }

  lemma NothingQuiet(s: Registry, now: int)
    requires Inv(s) && forall n :: n in s.names ==> !s.names[n].Abandoned(now)
    ensures SameButQuiet(s.names, MadeRoom(s, now).names, now)
  {
    if |s.names| >= MAX_CHANNEL_NAMES { SweptIsSame(s, now); }
  }

  /** Two that agree with a third but for quiet names, and have none, agree. */
  lemma SameBoth(names: Names, freed: Names, a: Names, b: Names, now: int)
    requires SameButQuiet(names, freed, now) && SameButQuiet(names, a, now) && SameButQuiet(freed, b, now)
    ensures a.Keys == b.Keys && SameButQuiet(a, b, now)
  {
    hide Alike;
    forall n | n in b ensures n in a && Alike(b[n], a[n], now) && !a[n].Abandoned(now) {
      AlikeMeans(freed[n], names[n], now);
      AlikeMeans(a[n], names[n], now);
      AlikeChain(b[n], freed[n], names[n], a[n], now);
    }
    forall n | n in a ensures n in b { AlikeMeans(freed[n], names[n], now); }
  }

  lemma AlikeChain(b: Record, f: Record, n: Record, a: Record, now: int)
    requires Alike(b, f, now) && Alike(f, n, now) && Alike(a, n, now)
    ensures Alike(b, a, now)
  {
  }

  lemma FreedQuiet(names: Names, freed: Names, now: int)
    requires SameButQuiet(names, freed, now)
    ensures forall n :: n in freed ==> !freed[n].Abandoned(now)
  {
    hide Alike;
    forall n | n in freed ensures !freed[n].Abandoned(now) { AlikeMeans(freed[n], names[n], now); }
  }

  lemma SameRoom(s: Registry, freed: Registry, now: int)
    requires Inv(s) && Inv(freed) && SameButQuiet(s.names, freed.names, now)
    ensures SameButQuiet(MadeRoom(s, now).names, MadeRoom(freed, now).names, now)
    ensures |MadeRoom(s, now).names| >= MAX_CHANNEL_NAMES <==> |MadeRoom(freed, now).names| >= MAX_CHANNEL_NAMES
  {
    SubsetSize(freed.names.Keys, s.names.Keys);
    if |s.names| >= MAX_CHANNEL_NAMES {
      hide Inv, MadeRoom, SameButQuiet;
      FreedQuiet(s.names, freed.names, now);
      SweptIsSame(s, now);
      NothingQuiet(freed, now);
      SameBoth(s.names, freed.names, MadeRoom(s, now).names, MadeRoom(freed, now).names, now);
      assert |MadeRoom(s, now).names.Keys| == |MadeRoom(freed, now).names.Keys|;
    }
  }

  /** The record a claim writes is the same from either. */
  lemma SameWritten(names: Names, freed: Names, n: Name, q: Ask)
    requires SameButQuiet(names, freed, q.now) && n in names && !names[n].Abandoned(q.now)
    ensures n in freed && freed[n] == names[n].(refreshedAt := freed[n].refreshedAt)
    ensures SameButQuiet(Refreshed(names, n, q.now), Refreshed(freed, n, q.now), q.now)
    ensures var r := names[n].(private := q.private, display := q.display, refreshedAt := q.now);
            && freed[n].(private := q.private, display := q.display, refreshedAt := q.now) == r
            && SameButQuiet(names[n := r], freed[n := r], q.now)
  {
    hide Alike, SameButQuiet;
    InFreed(names, freed, n, q.now);
    AlikeMeans(freed[n], names[n], q.now);
    StillNotQuiet(names[n], q);
    UpdateSame(names, freed, n, names[n].(refreshedAt := q.now), q.now);
    UpdateSame(names, freed, n, names[n].(private := q.private, display := q.display, refreshedAt := q.now), q.now);
  }

  lemma StillNotQuiet(r: Record, q: Ask)
    requires !r.Abandoned(q.now)
    ensures !r.(refreshedAt := q.now).Abandoned(q.now)
    ensures !r.(private := q.private, display := q.display, refreshedAt := q.now).Abandoned(q.now)
  {
  }

  lemma InFreed(names: Names, freed: Names, n: Name, now: int)
    requires SameButQuiet(names, freed, now) && n in names && !names[n].Abandoned(now)
    ensures n in freed && Alike(freed[n], names[n], now)
  {
  }

  lemma ClaimClearedSame(env: Env, s: Registry, freed: Registry, q: Ask)
    requires Inv(s) && Inv(freed) && SameButQuiet(s.names, freed.names, q.now)
    requires Settled(env, s.names, q.room, q.name, q.now)
    ensures var (s1, a) := ClaimCleared(env, s, q);
            var (s2, b) := ClaimCleared(env, freed, q);
            a == b && SameButQuiet(s1.names, s2.names, q.now)
  {
    hide Inv, LookalikeElsewhere, MadeRoom, Settled, SameButQuiet;
    InvOne(s);
    SameCurrent(env, s.names, freed.names, q.room, q.name, q.now);
    HeldSettled(env, s.names, q.room, q.name, q.now);
    var held := CurrentOf(s.names, q.room);
    if held.Some? && held.value != q.name {
      SameWritten(s.names, freed.names, held.value, q);
    } else if q.name in s.names {
      SameWritten(s.names, freed.names, q.name, q);
    } else {
      SameRoom(s, freed, q.now);
      InsertSame(MadeRoom(s, q.now).names, MadeRoom(freed, q.now).names, q.name, NewRecord(q), q.now);
    }
  }

  lemma HeldSettled(env: Env, names: Names, room: RoomId, name: Name, now: int)
    requires Settled(env, names, room, name, now)
    ensures name in names ==> !names[name].Abandoned(now)
    ensures CurrentOf(names, room).Some? ==> !names[CurrentOf(names, room).value].Abandoned(now)
  {
  }

  lemma UpdateSame(names: Names, freed: Names, n: Name, r: Record, now: int)
    requires SameButQuiet(names, freed, now) && n in names && !names[n].Abandoned(now) && !r.Abandoned(now)
    ensures SameButQuiet(names[n := r], freed[n := r], now)
  {
  }

  lemma InsertSame(names: Names, freed: Names, n: Name, r: Record, now: int)
    requires SameButQuiet(names, freed, now) && !r.Abandoned(now)
    ensures SameButQuiet(names[n := r], freed[n := r], now)
  {
  }

  /** A claim that frees only the quiet names it looks at answers as if every quiet name had been
      freed first, and differs from that only in quiet names still on record, and in stamps. */
  lemma ClaimAsIfAllFreed(env: Env, s: Registry, q: Ask)
    requires Inv(s)
    ensures var freed := s.(names := AllFreed(s.names, q.now));
            var (s1, a) := Claim(env, s, q);
            var (s2, b) := Claim(env, freed, q);
            a == b && SameButQuiet(s1.names, s2.names, q.now)
  {
    hide Inv, Cleared, ClaimCleared, Gone, Settled, SameButQuiet;
    var freed := s.(names := AllFreed(s.names, q.now));
    FreedInv(s, q.now);
    FreedIsSame(s.names, q.now);
    ClearedSame(env, s, freed, q.room, q.name, q.now);
    var s1 := s.(names := Cleared(env, s.names, q.room, q.name, q.now));
    var s2 := freed.(names := Cleared(env, freed.names, q.room, q.name, q.now));
    ClearedKeeps(env, s, q.room, q.name, q.now);
    ClearedKeeps(env, freed, q.room, q.name, q.now);
    ClaimClearedSame(env, s1, s2, q);
  }

  lemma FreedInv(s: Registry, now: int)
    requires Inv(s)
    ensures Inv(s.(names := AllFreed(s.names, now)))
  {
    hide NamesInv, HandlesInv, Gone;
    FewerNames(s.names, s.deleted, Gone(s.names, s.names.Keys, now));
  }
}
