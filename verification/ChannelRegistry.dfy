/**
 The channel registry as the server keeps it: the name records with an index of them by
 room and one by confusable skeleton, handles with their index by key, and tombstones.
 Every operation is proved to do what `RegistrySpec` says, with each index holding every
 name exactly once.
 */
module ChannelRegistryStore {
  import opened Options
  import opened Seqs
  import opened RegistrySpec
  import opened RegistrySafety

  type Index = map<nat, seq<Name>>

  /** What a name is filed under. */
  type Filing = (Name, Record) -> nat

  function ByRoom(): Filing { (n: Name, r: Record) => r.room }

  function BySkeleton(env: Env): Filing { (n: Name, r: Record) => env.skeleton(n) }

  // ---------------------------------------------------------------- the name indexes

  function Row(index: Index, k: nat): seq<Name> { if k in index then index[k] else [] }

  ghost predicate RowHolds(row: seq<Name>, names: Names, filed: Filing, k: nat) {
    && NoRepeats(row)
    && forall n :: n in row <==> n in names && filed(n, names[n]) == k
  }

  /** Each row lists exactly the names filed under its key, once each, and none is empty. */
  ghost predicate RowsAgree(index: Index, names: Names, filed: Filing) {
    && (forall k: nat :: RowHolds(Row(index, k), names, filed, k))
    && (forall k :: k in index ==> index[k] != [])
  }

  function Other(n: Name): Name -> bool { (m: Name) => m != n }

  function Attach(index: Index, k: nat, n: Name): Index { index[k := Row(index, k) + [n]] }

  function Detach(index: Index, k: nat, n: Name): Index {
    if k !in index then index
    else
      var row := Filter(Other(n), index[k]);
      if row == [] then index - {k} else index[k := row]
  }

  lemma {:induction false} FilterNoRepeats(n: Name, row: seq<Name>)
    requires NoRepeats(row)
    ensures NoRepeats(Filter(Other(n), row))
  {
    if row != [] { FilterNoRepeats(n, row[..|row| - 1]); }
  }

  lemma AttachRow(index: Index, k: nat, n: Name, j: nat)
    ensures Row(Attach(index, k, n), j) == if j == k then Row(index, k) + [n] else Row(index, j)
  {
  }

  lemma DetachRow(index: Index, k: nat, n: Name, j: nat)
    requires forall i :: i in index ==> index[i] != []
    ensures Row(Detach(index, k, n), j) == if j == k then Filter(Other(n), Row(index, k)) else Row(index, j)
    ensures forall i :: i in Detach(index, k, n) ==> Detach(index, k, n)[i] != []
  {
  }

  lemma SnocNoRepeats(row: seq<Name>, n: Name)
    requires NoRepeats(row) && n !in row
    ensures NoRepeats(row + [n])
  {
  }

  lemma RowsAttach(index: Index, names: Names, filed: Filing, n: Name, r: Record)
    requires RowsAgree(index, names, filed) && n !in names
    ensures RowsAgree(Attach(index, filed(n, r), n), names[n := r], filed)
  {
    hide NoRepeats;
    var k := filed(n, r);
    forall j: nat ensures RowHolds(Row(Attach(index, k, n), j), names[n := r], filed, j) {
      assert RowHolds(Row(index, j), names, filed, j);
      AttachRow(index, k, n, j);
      if j == k { SnocNoRepeats(Row(index, k), n); }
    }
  }

  lemma RowsDetach(index: Index, names: Names, filed: Filing, n: Name)
    requires RowsAgree(index, names, filed) && n in names
    ensures RowsAgree(Detach(index, filed(n, names[n]), n), names - {n}, filed)
  {
    hide NoRepeats, Detach, Filter;
    var k := filed(n, names[n]);
    forall j: nat ensures RowHolds(Row(Detach(index, k, n), j), names - {n}, filed, j) {
      assert RowHolds(Row(index, j), names, filed, j);
      DetachRow(index, k, n, j);
      if j == k { FilterNoRepeats(n, Row(index, k)); }
    }
    DetachRow(index, k, n, k);
  }

  /** Records changed where they are filed. */
  lemma RowsKeep(index: Index, names: Names, names': Names, filed: Filing)
    requires RowsAgree(index, names, filed) && names'.Keys == names.Keys
    requires forall n :: n in names ==> filed(n, names'[n]) == filed(n, names[n])
    ensures RowsAgree(index, names', filed)
  {
    hide NoRepeats;
    forall j: nat ensures RowHolds(Row(index, j), names', filed, j) {
      assert RowHolds(Row(index, j), names, filed, j);
      forall n ensures n in Row(index, j) <==> n in names' && filed(n, names'[n]) == j {
        assert n in names <==> n in names'.Keys;
      }
    }
  }

  /** A record filed anew. */
  lemma RowsRefile(index: Index, names: Names, filed: Filing, n: Name, r: Record)
    requires RowsAgree(index, names, filed) && n in names
    ensures RowsAgree(Attach(Detach(index, filed(n, names[n]), n), filed(n, r), n), names[n := r], filed)
  {
    hide RowsAgree, Attach, Detach;
    RowsDetach(index, names, filed, n);
    RowsAttach(Detach(index, filed(n, names[n]), n), names - {n}, filed, n, r);
    assert (names - {n})[n := r] == names[n := r];
  }

  lemma RowIs(index: Index, names: Names, filed: Filing, k: nat)
    requires RowsAgree(index, names, filed)
    ensures RowHolds(Row(index, k), names, filed, k)
  {
  }

  // ---------------------------------------------------------------- handles by key

  ghost predicate KeysAgree(byKey: map<Key, Handle>, holders: map<Handle, Key>) {
    && (forall u :: u in holders ==> holders[u] in byKey && byKey[holders[u]] == u)
    && (forall k :: k in byKey ==> byKey[k] in holders && holders[byKey[k]] == k)
  }

  lemma HandleByKey(byKey: map<Key, Handle>, h: Handles, key: Key)
    requires KeysAgree(byKey, h.holders)
    ensures HandleOf(h, key) == if key in byKey then Some(byKey[key]) else None
  {
  }

  // ---------------------------------------------------------------- the registry

  class ChannelRegistry {
    const env: Env
    var usernames: map<Handle, Key>
    var byPubkey: map<Key, Handle>
    var names: Names
    var deleted: set<RoomId>
    var usernameActivity: map<Key, int>
    var byChannel: Index
    var bySkeleton: Index
    var open: bool

    function State(): Registry
      reads this
    {
      Registry(names, deleted, Handles(usernames, usernameActivity), open)
    }

    ghost predicate Filed()
      reads this`names, this`byChannel, this`bySkeleton
    {
      RowsAgree(byChannel, names, ByRoom()) && RowsAgree(bySkeleton, names, BySkeleton(env))
    }

    ghost predicate Indexed()
      reads this
    {
      Filed() && KeysAgree(byPubkey, usernames)
    }

    ghost predicate Valid()
      reads this
    {
      Inv(State()) && Indexed()
    }

    constructor (env: Env)
      ensures Valid() && State() == EMPTY && this.env == env
    {
      this.env := env;
      usernames, byPubkey, names, deleted, usernameActivity := map[], map[], map[], {}, map[];
      byChannel, bySkeleton, open := map[], map[], true;
      new;
      RunInv(env, []);
    }

    method InsertName(n: Name, r: Record)
      requires Filed() && n !in names
      modifies this`names, this`byChannel, this`bySkeleton
      ensures Filed() && names == old(names)[n := r]
    {
      hide RowsAgree;
      RowsAttach(byChannel, names, ByRoom(), n, r);
      RowsAttach(bySkeleton, names, BySkeleton(env), n, r);
      byChannel := Attach(byChannel, r.room, n);
      bySkeleton := Attach(bySkeleton, env.skeleton(n), n);
      names := names[n := r];
    }

    method RemoveName(n: Name)
      requires Filed() && n in names
      modifies this`names, this`byChannel, this`bySkeleton
      ensures Filed() && names == old(names) - {n}
    {
      hide RowsAgree;
      RowsDetach(byChannel, names, ByRoom(), n);
      RowsDetach(bySkeleton, names, BySkeleton(env), n);
      byChannel := Detach(byChannel, names[n].room, n);
      bySkeleton := Detach(bySkeleton, env.skeleton(n), n);
      names := names - {n};
    }

    /** Change a record where it is filed. */
    method SetRecord(n: Name, r: Record)
      requires Filed() && n in names && r.room == names[n].room
      modifies this`names
      ensures Filed() && names == old(names)[n := r]
    {
      hide RowsAgree;
      RowsKeep(byChannel, names, names[n := r], ByRoom());
      RowsKeep(bySkeleton, names, names[n := r], BySkeleton(env));
      names := names[n := r];
    }

    method LiveNameOf(room: RoomId) returns (held: Option<Name>)
      requires Filed() && OneCurrent(names)
      ensures held == CurrentOf(names, room)
    {
      hide RowsAgree;
      RowIs(byChannel, names, ByRoom(), room);
      var row := Row(byChannel, room);
      for i := 0 to |row|
        invariant forall j :: 0 <= j < i ==> !names[row[j]].IsCurrent()
      {
        assert row[i] in row;
        if names[row[i]].IsCurrent() {
          assert IsCurrentOf(names, room, row[i]);
          return Some(row[i]);
        }
      }
      assert forall n :: IsCurrentOf(names, room, n) ==> n in row;
      held := None;
    }

    /** Removes the abandoned ones among the candidates, from the records and both indexes. */
    method ReapAbandoned(candidates: set<Name>, now: int)
      requires Filed()
      modifies this`names, this`byChannel, this`bySkeleton
      ensures Filed() && names == old(names) - Gone(old(names), candidates, now)
    {
      hide Filed;
      var todo := candidates;
      while todo != {}
        invariant Filed() && todo <= candidates
        invariant names == old(names) - Gone(old(names), candidates - todo, now)
        decreases |todo|
      {
        var n :| n in todo;
        var left := todo - {n};
        if n in names && names[n].Abandoned(now) {
          assert Gone(old(names), candidates - left, now) == Gone(old(names), candidates - todo, now) + {n};
          RemoveName(n);
        } else {
          assert Gone(old(names), candidates - left, now) == Gone(old(names), candidates - todo, now);
        }
        todo := left;
      }
      assert candidates - {} == candidates;
    }

    /** Forget the quiet names that decide the fate of `name` asked for by `room`. */
    method ClearFor(room: RoomId, name: Name, now: int)
      requires Filed()
      modifies this`names, this`byChannel, this`bySkeleton
      ensures Filed() && names == Cleared(env, old(names), room, name, now)
    {
      hide RowsAgree, Gone;
      RowIs(byChannel, names, ByRoom(), room);
      RowIs(bySkeleton, names, BySkeleton(env), env.skeleton(name));
      var mine, alike := Row(byChannel, room), Row(bySkeleton, env.skeleton(name));
      var candidates := {name} + (set n | n in mine) + (set n | n in alike);
      assert candidates == Candidates(env, names, room, name);
      ReapAbandoned(candidates, now);
    }

    method AnyLookalikeElsewhere(room: RoomId, name: Name) returns (found: bool)
      requires Filed()
      ensures found == LookalikeElsewhere(env, names, room, name)
    {
      hide RowsAgree;
      RowIs(bySkeleton, names, BySkeleton(env), env.skeleton(name));
      var row := Row(bySkeleton, env.skeleton(name));
      assert forall n :: n in row <==> n in Lookalikes(env, names, name);
      found := exists n :: n in row && names[n].room != room;
    }

    method ReleaseUsername(u: Handle)
      requires KeysAgree(byPubkey, usernames) && u in usernames
      modifies this`usernames, this`byPubkey, this`usernameActivity
      ensures KeysAgree(byPubkey, usernames)
      ensures Handles(usernames, usernameActivity) == WithoutHandles(old(Handles(usernames, usernameActivity)), {u})
    {
      var k := usernames[u];
      assert (set v | v in {u} && v in usernames :: usernames[v]) == {k};
      usernames := usernames - {u};
      byPubkey := byPubkey - {k};
      usernameActivity := usernameActivity - {k};
    }

    method ReapHandles(now: int)
      requires KeysAgree(byPubkey, usernames)
      modifies this`usernames, this`byPubkey, this`usernameActivity
      ensures KeysAgree(byPubkey, usernames)
      ensures Handles(usernames, usernameActivity) == ReapedHandles(old(Handles(usernames, usernameActivity)), now)
    {
      hide KeysAgree;
      ghost var h0 := Handles(usernames, GrandfatheredActivity(Handles(usernames, usernameActivity), now));
      usernameActivity := GrandfatheredActivity(Handles(usernames, usernameActivity), now);
      var todo := IdleHandles(Handles(usernames, usernameActivity), now);
      ghost var idle := todo;
      WithoutNone(h0);
      while todo != {}
        invariant KeysAgree(byPubkey, usernames) && todo <= idle <= h0.holders.Keys
        invariant Handles(usernames, usernameActivity) == WithoutHandles(h0, idle - todo)
        decreases |todo|
      {
        var u :| u in todo;
        ReleaseUsername(u);
        WithoutMore(h0, idle - todo, u);
        assert (idle - todo) + {u} == idle - (todo - {u});
        todo := todo - {u};
      }
      assert idle - {} == idle;
    }

    method ReapStale(now: int)
      requires Indexed()
      modifies this`names, this`byChannel, this`bySkeleton, this`usernames, this`byPubkey, this`usernameActivity
      ensures Indexed() && State() == ReapedStale(old(State()), now)
    {
      hide RowsAgree, KeysAgree, Gone, ReapedHandles;
      RowsKeep(byChannel, names, Grandfathered(names, now), ByRoom());
      RowsKeep(bySkeleton, names, Grandfathered(names, now), BySkeleton(env));
      names := Grandfathered(names, now);
      ReapHandles(now);
      ReapAbandoned(names.Keys, now);
    }

    method MakeRoom(now: int)
      requires Valid()
      modifies this`names, this`byChannel, this`bySkeleton, this`usernames, this`byPubkey, this`usernameActivity
      ensures Valid() && State() == MadeRoom(old(State()), now)
    {
      hide Inv, RowsAgree, KeysAgree, ReapedStale;
      MakeRoomInv(State(), now);
      if |names| >= MAX_CHANNEL_NAMES { ReapStale(now); }
    }

    method Claim(q: Ask) returns (answer: Answer)
      requires Valid() && open
      modifies this
      ensures Valid() && (State(), answer) == RegistrySpec.Claim(env, old(State()), q)
    {
      hide Inv, RowsAgree, KeysAgree, Cleared, MadeRoom, LookalikeElsewhere, RegistrySpec.ClaimCleared;
      ClaimInv(env, State(), q);
      if q.room in deleted { return Taken; }
      ClearedInv(env, State(), q.room, q.name, q.now);
      ClearFor(q.room, q.name, q.now);
      answer := ClaimCleared(q);
    }

    /** The rest of a claim. */
    method ClaimCleared(q: Ask) returns (answer: Answer)
      requires Valid() && q.room !in deleted
      modifies this
      ensures Valid()
      ensures (State(), answer) == RegistrySpec.ClaimCleared(env, old(State()), q)
    {
      hide Inv, RowsAgree, KeysAgree, MadeRoom, LookalikeElsewhere;
      ClaimClearedInv(env, State(), q);
      InvOne(State());
      var held := LiveNameOf(q.room);
      if held.Some? && held.value != q.name {
        var r := names[held.value];
        if r.key == q.key { SetRecord(held.value, r.(refreshedAt := q.now)); }
        return Taken;
      }
      var alike := AnyLookalikeElsewhere(q.room, q.name);
      if q.name !in names && alike { return Taken; }
      if q.name in names {
        var r := names[q.name];
        if r.deleted || r.retiredAt != 0 || r.room != q.room || r.key != q.key { return Taken; }
        SetRecord(q.name, r.(private := q.private, display := q.display, refreshedAt := q.now));
        return Ok;
      }
      MakeRoomInv(State(), q.now);
      MakeRoom(q.now);
      if |names| >= MAX_CHANNEL_NAMES { return Full; }
      InsertName(q.name, NewRecord(q));
      answer := Ok;
    }

    method ReleaseSurplus(room: RoomId)
      requires Filed()
      modifies this`names, this`byChannel, this`bySkeleton
      ensures Filed() && names == SurplusReleased(old(names), room)
    {
      hide Filed, SurplusReleased;
      while |RetiredOf(names, room)| > MAX_RETIRED_NAMES
        invariant Filed() && SurplusReleased(names, room) == SurplusReleased(old(names), room)
        decreases |RetiredOf(names, room)|
      {
        var n := OldestRetired(room);
        SurplusStep(names, room, n);
        RemoveName(n);
      }
      SurplusDone(names, room);
    }

    method OldestRetired(room: RoomId) returns (n: Name)
      requires RetiredOf(names, room) != {}
      ensures IsOldest(names, RetiredOf(names, room), n)
    {
      var todo := RetiredOf(names, room);
      n :| n in todo;
      todo := todo - {n};
      while todo != {}
        invariant n in RetiredOf(names, room) && todo <= RetiredOf(names, room)
        invariant forall m :: m in RetiredOf(names, room) - todo ==> NoLater(names, n, m)
        decreases |todo|
      {
        var m :| m in todo;
        todo := todo - {m};
        if NoLater(names, m, n) {
          assert forall x :: x in RetiredOf(names, room) - todo && x != m ==> NoLater(names, n, x);
          n := m;
        }
      }
    }

    method Rename(q: Ask) returns (answer: Answer)
      requires Valid() && open && q.now > 0
      modifies this
      ensures Valid() && (State(), answer) == RegistrySpec.Rename(env, old(State()), q)
    {
      hide Inv, RowsAgree, KeysAgree, Cleared, RegistrySpec.Claim, RegistrySpec.RenameFrom;
      RenameInv(env, State(), q);
      if q.room in deleted { return Taken; }
      ClearedInv(env, State(), q.room, q.name, q.now);
      ClearFor(q.room, q.name, q.now);
      InvOne(State());
      var held := LiveNameOf(q.room);
      if held.None? || held.value == q.name {
        answer := Claim(q);
      } else {
        answer := RenameFrom(held.value, q);
      }
    }

    method RenameFrom(from: Name, q: Ask)
      returns (answer: Answer)
      requires Valid() && q.now > 0 && IsCurrentOf(names, q.room, from) && from != q.name &&
               !names[from].Abandoned(q.now)
      modifies this
      ensures Valid()
      ensures (State(), answer) == RegistrySpec.RenameFrom(env, old(State()), from, q)
    {
      hide Inv, RowsAgree, KeysAgree, MadeRoom, LookalikeElsewhere, SurplusReleased;
      RenameFromInv(env, State(), from, q);
      var current := names[from];
      if current.key != q.key { return Forbidden; }
      if current.renamedAt > 0 && q.now - current.renamedAt < RENAME_INTERVAL_SECS { return RenameTooSoon; }
      var alike := AnyLookalikeElsewhere(q.room, q.name);
      if q.name !in names && alike { return Taken; }
      if q.name in names {
        if !CanTakeBack(names[q.name], q.room, q.key) { return Taken; }
      } else {
        MakeRoomInv(State(), q.now);
        MakeRoom(q.now);
        if |names| >= MAX_CHANNEL_NAMES { return Full; }
      }
      ApplyRename(from, q);
      ReleaseSurplus(q.room);
      answer := Ok;
    }

    method ApplyRename(from: Name, q: Ask)
      requires Filed() && from in names && from != q.name &&
               (q.name in names ==> names[q.name].room == names[from].room)
      modifies this`names, this`byChannel, this`bySkeleton
      ensures Filed() && names == Moved(old(names), from, q)
    {
      hide Filed;
      var was := names[from];
      SetRecord(from, was.(retiredAt := q.now));
      var renamed := Renamed(was, q);
      if q.name in names { SetRecord(q.name, renamed); } else { InsertName(q.name, renamed); }
    }

    method Nominate(room: RoomId, key: Key, nominee: Option<Key>, days: nat, valid: bool) returns (answer: Answer)
      requires Valid() && open
      modifies this
      ensures Valid() && (State(), answer) == RegistrySpec.Nominate(old(State()), room, key, nominee, days, valid)
    {
      hide Inv, RowsAgree, KeysAgree;
      NominateInv(State(), room, key, nominee, days, valid);
      InvOne(State());
      var clearing := nominee.None? || days == 0;
      if !clearing && !(valid && CLAIM_AFTER_DAYS_MIN <= days <= CLAIM_AFTER_DAYS_MAX) { return InvalidName; }
      var held := LiveNameOf(room);
      if held.None? { return InvalidName; }
      var r := names[held.value];
      if r.key != key { return Forbidden; }
      if clearing {
        SetRecord(held.value, r.(nominee := None, claimAfterDays := 0));
      } else {
        SetRecord(held.value, r.(nominee := nominee, claimAfterDays := days));
      }
      answer := Ok;
    }

    method Handover(from: RoomId, to: RoomId, key: Key, signer: Key, now: int) returns (answer: Answer)
      requires Valid() && open
      modifies this
      ensures Valid() && (State(), answer) == RegistrySpec.Handover(env, old(State()), from, to, key, signer, now)
    {
      hide Inv, RowsAgree, KeysAgree;
      HandoverInv(env, State(), from, to, key, signer, now);
      InvOne(State());
      if to == from { return InvalidName; }
      if from in deleted || to in deleted { return Taken; }
      var already := LiveNameOf(to);
      if already.Some? {
        var r := names[already.value];
        if !(r.key == key && r.handedOverFrom == Some(from)) { return Taken; }
        if SpeaksFor(env, r, to, signer) { SetRecord(already.value, r.(refreshedAt := now)); }
        return Ok;
      }
      var held := LiveNameOf(from);
      if held.None? { return InvalidName; }
      var n, r := held.value, names[held.value];
      if r.key != signer && !r.NomineeMay(signer, now) { return Forbidden; }
      var r' := HandedOver(r, to, key, signer, now);
      RowsRefile(byChannel, names, ByRoom(), n, r');
      RowsKeep(bySkeleton, names, names[n := r'], BySkeleton(env));
      byChannel := Attach(Detach(byChannel, r.room, n), to, n);
      names := names[n := r'];
      answer := Ok;
    }

    method Delete(room: RoomId, key: Key) returns (answer: Answer)
      requires Valid() && open
      modifies this
      ensures Valid() && (State(), answer) == RegistrySpec.Delete(old(State()), room, key)
    {
      hide Inv, RowsAgree, KeysAgree;
      DeleteInv(State(), room, key);
      RowIs(byChannel, names, ByRoom(), room);
      var held := Row(byChannel, room);
      assert forall n :: n in held <==> n in NamesOf(names, room);
      if exists n :: n in held && names[n].key != key { return Forbidden; }
      assert held == [] <==> NamesOf(names, room) == {} by {
        if held != [] { assert held[0] in NamesOf(names, room); }
      }
      if held == [] && room in deleted { return Ok; }
      if held == [] && |deleted| >= MAX_DELETED { return Full; }
      Bury(held, room);
      deleted := deleted + {room};
      answer := Ok;
    }

    /** Mark the room's records deleted, one after another. */
    method Bury(held: seq<Name>, room: RoomId)
      requires Filed() && forall n :: n in held <==> n in NamesOf(names, room)
      modifies this`names
      ensures Filed() && names == Buried(old(names), room)
    {
      hide Filed;
      for i := 0 to |held|
        invariant Filed() && names.Keys == old(names).Keys
        invariant forall n :: n in names ==>
                    names[n] == if n in held[..i] then old(names)[n].(deleted := true) else old(names)[n]
      {
        assert held[i] in held;
        SetRecord(held[i], names[held[i]].(deleted := true));
        assert held[..i + 1] == held[..i] + [held[i]];
      }
      assert held[..|held|] == held;
    }

    /** A key's present handle goes before it takes another. */
    method GiveUp(key: Key)
      requires Filed() && KeysAgree(byPubkey, usernames)
      modifies this`usernames, this`byPubkey
      ensures Filed() && KeysAgree(byPubkey, usernames) && key !in byPubkey
      ensures var held := HandleOf(old(Handles(usernames, usernameActivity)), key);
              usernames == if held.Some? then old(usernames) - {held.value} else old(usernames)
    {
      hide Filed, HandleOf;
      HandleByKey(byPubkey, Handles(usernames, usernameActivity), key);
      if key in byPubkey {
        usernames := usernames - {byPubkey[key]};
        byPubkey := byPubkey - {key};
      }
    }

    method RoomForHandle(now: int)
      requires Indexed()
      modifies this`names, this`byChannel, this`bySkeleton, this`usernames, this`byPubkey, this`usernameActivity
      ensures Indexed()
      ensures State() == if |old(usernames)| >= MAX_USERNAMES then ReapedStale(old(State()), now) else old(State())
      ensures usernames.Keys <= old(usernames).Keys && byPubkey.Keys <= old(byPubkey).Keys
    {
      hide Filed, KeysAgree, ReapedStale;
      if |usernames| >= MAX_USERNAMES {
        ghost var was, wasBy := State(), byPubkey;
        ReapStale(now);
        ReapedFewer(was, now, wasBy, byPubkey);
      }
    }

    method Grant(key: Key, handle: Handle, now: int)
      requires Filed() && KeysAgree(byPubkey, usernames) && handle !in usernames && key !in byPubkey
      modifies this`usernames, this`byPubkey, this`usernameActivity
      ensures Filed() && KeysAgree(byPubkey, usernames)
      ensures usernames == old(usernames)[handle := key] && usernameActivity == old(usernameActivity)[key := now]
    {
      hide Filed;
      usernames := usernames[handle := key];
      byPubkey := byPubkey[key := handle];
      usernameActivity := usernameActivity[key := now];
    }

    method ClaimUsername(key: Key, handle: Handle, now: int) returns (answer: Answer)
      requires Valid() && open
      modifies this
      ensures Valid() && (State(), answer) == ClaimHandle(old(State()), key, handle, now)
    {
      hide Inv, Filed, KeysAgree, WithoutHandles, ReapedStale, HandleOf;
      HandleInv(State(), key, handle, now);
      if handle in usernames && IsIdle(Handles(usernames, usernameActivity), usernames[handle], now) {
        ReleaseUsername(handle);
      }
      if handle in usernames {
        if usernames[handle] == key {
          usernameActivity := usernameActivity[key := now];
          return Ok;
        }
        return Taken;
      }
      GiveUp(key);
      RoomForHandle(now);
      if |usernames| >= MAX_USERNAMES { return Full; }
      Grant(key, handle, now);
      answer := Ok;
    }

    /** Shuts the registry: its records stay as they are, and `Serve` changes none of them again. */
    method CloseForShutdown()
      requires Valid()
      modifies this`open
      ensures Valid() && State() == old(State()).(open := false)
    {
      hide Inv, Filed, KeysAgree;
      CloseInv(State());
      open := false;
    }

    /** Any request, as the server serves it: nothing is written once closed, and a name that
        does not normalise is refused before anything is looked at. */
    method Serve(op: Op) returns (answer: Answer)
      requires Valid() && ClockOk(op)
      modifies this
      ensures Valid() && (State(), answer) == Step(env, old(State()), op)
    {
      hide Inv, Filed, KeysAgree, RegistrySpec.Claim, RegistrySpec.Rename, RegistrySpec.Nominate, RegistrySpec.Handover,
        RegistrySpec.Delete, ReapedStale, ClaimHandle;
      if op.Close? {
        CloseForShutdown();
        return Ok;
      }
      if !open { return ReadOnly; }
      match op
      case ClaimName(room, key, name, display, private, now) =>
        if name.None? { return InvalidName; }
        answer := Claim(Ask(room, key, name.value, display, private, now));
      case RenameName(room, key, name, display, private, now) =>
        if name.None? { return InvalidName; }
        answer := Rename(Ask(room, key, name.value, display, private, now));
      case SetNominee(room, key, nominee, days, valid) =>
        answer := Nominate(room, key, nominee, days, valid);
      case HandOver(from, to, key, signer, valid, now) =>
        if !valid { return InvalidName; }
        answer := Handover(from, to, key, signer, now);
      case DeleteRoom(room, key) =>
        answer := Delete(room, key);
      case Reap(now) =>
        ReapInv(State(), now);
        ReapStale(now);
        answer := Ok;
      case TakeHandle(key, handle, now) =>
        if handle.None? { return InvalidName; }
        answer := ClaimUsername(key, handle.value, now);
    }
  }

  /** Reaping handles brings none back. */
  lemma ReapedFewer(s: Registry, now: int, wasBy: map<Key, Handle>, byKey: map<Key, Handle>)
    requires KeysAgree(wasBy, s.handles.holders) && KeysAgree(byKey, ReapedStale(s, now).handles.holders)
    ensures ReapedStale(s, now).handles.holders.Keys <= s.handles.holders.Keys
    ensures byKey.Keys <= wasBy.Keys
  {
    hide ReapedNames, IdleHandles;
    var holders, holders' := s.handles.holders, ReapedStale(s, now).handles.holders;
    assert forall u :: u in holders' ==> u in holders && holders'[u] == holders[u];
  }

  lemma ClearedInv(env: Env, s: Registry, room: RoomId, name: Name, now: int)
    requires Inv(s)
    ensures Inv(s.(names := Cleared(env, s.names, room, name, now)))
    ensures var names := Cleared(env, s.names, room, name, now);
            forall n :: n in names && names[n].room == room ==> !names[n].Abandoned(now)
  {
    hide NamesInv;
    FewerNames(s.names, s.deleted, Gone(s.names, Candidates(env, s.names, room, name), now));
  }

  lemma WithoutNone(h: Handles)
    ensures WithoutHandles(h, {}) == h
  {
    assert h.holders - {} == h.holders && h.activity - {} == h.activity;
  }

  lemma WithoutMore(h: Handles, gone: set<Handle>, u: Handle)
    ensures WithoutHandles(WithoutHandles(h, gone), {u}) == WithoutHandles(h, gone + {u})
  {
  }

  lemma SurplusStep(names: Names, room: RoomId, n: Name)
    requires |RetiredOf(names, room)| > MAX_RETIRED_NAMES && IsOldest(names, RetiredOf(names, room), n)
    ensures SurplusReleased(names, room) == SurplusReleased(names - {n}, room)
    ensures RetiredOf(names - {n}, room) == RetiredOf(names, room) - {n}
  {
    OldestExists(names, RetiredOf(names, room));
    var m :| IsOldest(names, RetiredOf(names, room), m) &&
        SurplusReleased(names, room) == SurplusReleased(names - {m}, room);
    OneOldest(names, RetiredOf(names, room), n, m);
  }

  lemma OneOldest(names: Names, among: set<Name>, n: Name, m: Name)
    requires among <= names.Keys && IsOldest(names, among, n) && IsOldest(names, among, m)
    ensures n == m
  {
    assert NoLater(names, m, n) && NoLater(names, n, m);
  }

  lemma SurplusDone(names: Names, room: RoomId)
    requires |RetiredOf(names, room)| <= MAX_RETIRED_NAMES
    ensures SurplusReleased(names, room) == names
  {
  }
}
