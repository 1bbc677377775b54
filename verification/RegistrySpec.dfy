/**
 The channel registry as its name records, tombstones and handles.

 A room holds one current name and up to three it has left behind. Names are claimed,
 renamed, nominated, handed over, deleted or freed when their owner has gone quiet;
 a claim frees only the quiet names its own outcome depends on. `ChannelRegistry` keeps
 the lookup indexes and is proved to do what this module says.
 */
module RegistrySpec {
  import opened Options

  const DAY: int := 24 * 60 * 60
  const NAME_RELEASE_SECS: int := 365 * DAY
  const NOMINEE_GRACE_SECS: int := 30 * DAY
  const RETIRED_NAME_HOLD_SECS: int := 30 * DAY
  const RENAME_INTERVAL_SECS: int := DAY
  const USERNAME_IDLE_SECS: int := 365 * DAY
  const MAX_RETIRED_NAMES: nat := 3
  const CLAIM_AFTER_DAYS_MIN: nat := 7
  const CLAIM_AFTER_DAYS_MAX: nat := 365
  const MAX_USERNAMES: nat := 100_000
  const MAX_CHANNEL_NAMES: nat := 100_000
  const MAX_DELETED: nat := 100_000

  type Name = nat
  type Skeleton = nat
  type RoomId = nat
  type Key = nat
  type Handle = nat
  type Display = string

  /** Code outside the model: the confusable skeleton of a name, and the room a key's hash names. */
  datatype Env = Env(skeleton: Name -> Skeleton, roomOf: Key -> Option<RoomId>)

  datatype Record = Record(
    room: RoomId, key: Key, private: bool, deleted: bool, display: Display, refreshedAt: int,
    nominee: Option<Key>, claimAfterDays: nat, createdAt: int, handedOverFrom: Option<RoomId>,
    retiredAt: int, renamedAt: int, inheritor: Option<Key>)
  {
    predicate HasNominee() { claimAfterDays > 0 && nominee.Some? }

    predicate IsCurrent() { !deleted && retiredAt == 0 }

    predicate IsRetired() { !deleted && retiredAt > 0 }

    /** Owner silence after which the name is freed. */
    function ReleaseAfter(): int {
      if !HasNominee() then NAME_RELEASE_SECS
      else
        var graceEnds := claimAfterDays * DAY + NOMINEE_GRACE_SECS;
        if graceEnds > NAME_RELEASE_SECS then graceEnds else NAME_RELEASE_SECS
    }

    predicate Abandoned(now: int) {
      if deleted then false
      else if retiredAt > 0 then now - retiredAt > RETIRED_NAME_HOLD_SECS
      else refreshedAt > 0 && now - refreshedAt > ReleaseAfter()
    }

    /** Whether the nominee may take the name: the owner silent for as long as it published. */
    predicate NomineeMay(signer: Key, now: int) {
      HasNominee() && nominee == Some(signer) && now - refreshedAt >= claimAfterDays * DAY
    }
  }

  type Names = map<Name, Record>

  /** Handles and their holders, and when each holder was last active. */
  datatype Handles = Handles(holders: map<Handle, Key>, activity: map<Key, int>)

  datatype Registry = Registry(names: Names, deleted: set<RoomId>, handles: Handles, open: bool)

  const EMPTY := Registry(map[], {}, Handles(map[], map[]), true)

  datatype Answer = Ok | InvalidName | Taken | Forbidden | RenameTooSoon | Full | ReadOnly

  // ---------------------------------------------------------------- reading the records

  function NamesOf(names: Names, room: RoomId): set<Name> { set n | n in names && names[n].room == room }

  function Lookalikes(env: Env, names: Names, name: Name): set<Name> {
    set n | n in names && env.skeleton(n) == env.skeleton(name)
  }

  function RetiredOf(names: Names, room: RoomId): set<Name> {
    set n | n in names && names[n].room == room && names[n].IsRetired()
  }

  predicate IsCurrentOf(names: Names, room: RoomId, n: Name) {
    n in names && names[n].room == room && names[n].IsCurrent()
  }

  ghost function CurrentOf(names: Names, room: RoomId): (r: Option<Name>)
    ensures r.Some? ==> IsCurrentOf(names, room, r.value)
    ensures r.None? ==> forall n :: !IsCurrentOf(names, room, n)
  {
    if exists n :: IsCurrentOf(names, room, n) then
      var n :| IsCurrentOf(names, room, n);
      Some(n)
    else None
  }

  predicate LookalikeElsewhere(env: Env, names: Names, room: RoomId, name: Name) {
    exists n :: n in Lookalikes(env, names, name) && names[n].room != room
  }

  // ---------------------------------------------------------------- freeing what is abandoned

  function Gone(names: Names, candidates: set<Name>, now: int): set<Name> {
    set n | n in candidates && n in names && names[n].Abandoned(now)
  }

  function Candidates(env: Env, names: Names, room: RoomId, name: Name): set<Name> {
    {name} + NamesOf(names, room) + Lookalikes(env, names, name)
  }

  function Cleared(env: Env, names: Names, room: RoomId, name: Name, now: int): Names {
    names - Gone(names, Candidates(env, names, room, name), now)
  }

  /** A record without a time of refresh counts as refreshed now. */
  function Stamped(r: Record, now: int): Record {
    if !r.deleted && r.refreshedAt <= 0 then r.(refreshedAt := now) else r
  }

  function Grandfathered(names: Names, now: int): Names { map n | n in names :: Stamped(names[n], now) }

  function GrandfatheredActivity(h: Handles, now: int): map<Key, int> {
    (map k | k in h.holders.Values && k !in h.activity :: now) + h.activity
  }

  predicate IsIdle(h: Handles, key: Key, now: int) {
    key in h.activity && now - h.activity[key] > USERNAME_IDLE_SECS
  }

  function IdleHandles(h: Handles, now: int): set<Handle> {
    set u | u in h.holders && IsIdle(h, h.holders[u], now)
  }

  function WithoutHandles(h: Handles, gone: set<Handle>): Handles {
    Handles(h.holders - gone, h.activity - (set u | u in gone && u in h.holders :: h.holders[u]))
  }

  function ReapedHandles(h: Handles, now: int): Handles {
    var h' := Handles(h.holders, GrandfatheredActivity(h, now));
    WithoutHandles(h', IdleHandles(h', now))
  }

  function ReapedNames(names: Names, now: int): Names {
    var names' := Grandfathered(names, now);
    names' - Gone(names', names'.Keys, now)
  }

  function ReapedStale(s: Registry, now: int): Registry {
    s.(names := ReapedNames(s.names, now), handles := ReapedHandles(s.handles, now))
  }

  // ---------------------------------------------------------------- operations on names

  /** What a claim or rename asks for, and when. */
  datatype Ask = Ask(room: RoomId, key: Key, name: Name, display: Display, private: bool, now: int)

  function Refreshed(names: Names, n: Name, now: int): Names
    requires n in names
  {
    names[n := names[n].(refreshedAt := now)]
  }

  function MadeRoom(s: Registry, now: int): Registry {
    if |s.names| >= MAX_CHANNEL_NAMES then ReapedStale(s, now) else s
  }

  function NewRecord(q: Ask): Record {
    Record(q.room, q.key, q.private, false, q.display, q.now, None, 0, q.now, None, 0, 0, None)
  }

  /** A claim, once what its outcome depends on has been cleared. */
  ghost function ClaimCleared(env: Env, s: Registry, q: Ask): (Registry, Answer) {
    var held := CurrentOf(s.names, q.room);
    if held.Some? && held.value != q.name then
      (if s.names[held.value].key == q.key then s.(names := Refreshed(s.names, held.value, q.now)) else s, Taken)
    else if q.name !in s.names && LookalikeElsewhere(env, s.names, q.room, q.name) then (s, Taken)
    else if q.name in s.names then
      var r := s.names[q.name];
      if r.deleted || r.retiredAt != 0 || r.room != q.room || r.key != q.key then (s, Taken)
      else (s.(names := s.names[q.name := r.(private := q.private, display := q.display, refreshedAt := q.now)]), Ok)
    else
      var s' := MadeRoom(s, q.now);
      if |s'.names| >= MAX_CHANNEL_NAMES then (s', Full)
      else (s'.(names := s'.names[q.name := NewRecord(q)]), Ok)
  }

  ghost function Claim(env: Env, s: Registry, q: Ask): (Registry, Answer) {
    if q.room in s.deleted then (s, Taken)
    else
      ClaimCleared(env, s.(names := Cleared(env, s.names, q.room, q.name, q.now)), q)
  }

  /** The record of the room's new name; what belongs to the room travels with it. */
  function Renamed(was: Record, q: Ask): Record {
    was.(private := q.private, deleted := false, display := q.display, refreshedAt := q.now, retiredAt := 0,
         renamedAt := q.now)
  }

  function Moved(names: Names, from: Name, q: Ask): Names
    requires from in names
  {
    names[from := names[from].(retiredAt := q.now)][q.name := Renamed(names[from], q)]
  }

  predicate NoLater(names: Names, n: Name, m: Name)
    requires n in names && m in names
  {
    names[n].retiredAt < names[m].retiredAt || (names[n].retiredAt == names[m].retiredAt && n <= m)
  }

  predicate IsOldest(names: Names, among: set<Name>, n: Name)
    requires among <= names.Keys
  {
    n in among && forall m :: m in among ==> NoLater(names, n, m)
  }

  lemma {:induction false} OldestExists(names: Names, among: set<Name>)
    requires among != {} && among <= names.Keys
    ensures exists n :: IsOldest(names, among, n)
  {
    var x :| x in among;
    var rest := among - {x};
    if rest == {} {
      assert among == {x};
      assert IsOldest(names, among, x);
    } else {
      OldestExists(names, rest);
      var n :| IsOldest(names, rest, n);
      var first := if NoLater(names, x, n) then x else n;
      forall m | m in among ensures NoLater(names, first, m) {
        assert m == x || m in rest;
        assert m in rest ==> NoLater(names, n, m);
      }
      assert IsOldest(names, among, first);
    }
  }

  /** Free the oldest of the room's retired names past the most it may hold. */
  ghost function SurplusReleased(names: Names, room: RoomId): Names
    decreases |RetiredOf(names, room)|
  {
    if |RetiredOf(names, room)| <= MAX_RETIRED_NAMES then names
    else
      OldestExists(names, RetiredOf(names, room));
      var n :| IsOldest(names, RetiredOf(names, room), n);
      assert RetiredOf(names - {n}, room) == RetiredOf(names, room) - {n};
      SurplusReleased(names - {n}, room)
  }

  ghost function Rename(env: Env, s: Registry, q: Ask): (Registry, Answer) {
    if q.room in s.deleted then (s, Taken)
    else
      var s1 := s.(names := Cleared(env, s.names, q.room, q.name, q.now));
      var held := CurrentOf(s1.names, q.room);
      if held.None? || held.value == q.name then Claim(env, s1, q)
      else RenameFrom(env, s1, held.value, q)
  }

  ghost function RenameFrom(env: Env, s: Registry, from: Name, q: Ask): (Registry, Answer)
    requires from in s.names
  {
    var current := s.names[from];
    if current.key != q.key then (s, Forbidden)
    else if current.renamedAt > 0 && q.now - current.renamedAt < RENAME_INTERVAL_SECS then (s, RenameTooSoon)
    else if q.name !in s.names && LookalikeElsewhere(env, s.names, q.room, q.name) then (s, Taken)
    else if q.name in s.names && !CanTakeBack(s.names[q.name], q.room, q.key) then (s, Taken)
    else
      var s' := if q.name in s.names then s else MadeRoom(s, q.now);
      if q.name !in s.names && |s'.names| >= MAX_CHANNEL_NAMES then (s', Full)
      else if from !in s'.names then (s', Ok)
      else (s'.(names := SurplusReleased(Moved(s'.names, from, q), q.room)), Ok)
  }

  predicate CanTakeBack(r: Record, room: RoomId, key: Key) {
    !r.deleted && r.retiredAt != 0 && r.room == room && r.key == key
  }

  ghost function Nominate(s: Registry, room: RoomId, key: Key, nominee: Option<Key>, days: nat,
                          valid: bool): (Registry, Answer) {
    var clearing := nominee.None? || days == 0;
    if !clearing && !(valid && CLAIM_AFTER_DAYS_MIN <= days <= CLAIM_AFTER_DAYS_MAX) then (s, InvalidName)
    else
      var held := CurrentOf(s.names, room);
      if held.None? then (s, InvalidName)
      else
        var r := s.names[held.value];
        if r.key != key then (s, Forbidden)
        else
          var r' := if clearing then r.(nominee := None, claimAfterDays := 0)
                    else r.(nominee := nominee, claimAfterDays := days);
          (s.(names := s.names[held.value := r']), Ok)
  }

  /** The signer is the key `room` is named after, or took the name over to it as a nominee. */
  predicate SpeaksFor(env: Env, r: Record, room: RoomId, signer: Key) {
    env.roomOf(signer) == Some(room) || r.inheritor == Some(signer)
  }

  function HandedOver(r: Record, room: RoomId, key: Key, signer: Key, now: int): Record {
    r.(inheritor := if r.NomineeMay(signer, now) then Some(signer) else None,
       room := room, key := key, refreshedAt := now, handedOverFrom := Some(r.room), nominee := None,
       claimAfterDays := 0)
  }

  ghost function Handover(env: Env, s: Registry, from: RoomId, to: RoomId, key: Key, signer: Key,
                          now: int): (Registry, Answer) {
    if to == from then (s, InvalidName)
    else if from in s.deleted || to in s.deleted then (s, Taken)
    else
      var already := CurrentOf(s.names, to);
      if already.Some? then
        var r := s.names[already.value];
        if !(r.key == key && r.handedOverFrom == Some(from)) then (s, Taken)
        else (if SpeaksFor(env, r, to, signer) then s.(names := Refreshed(s.names, already.value, now)) else s, Ok)
      else
        var held := CurrentOf(s.names, from);
        if held.None? then (s, InvalidName)
        else
          var r := s.names[held.value];
          if r.key != signer && !r.NomineeMay(signer, now) then (s, Forbidden)
          else (s.(names := s.names[held.value := HandedOver(r, to, key, signer, now)]), Ok)
  }

  /** Every record of the room marked deleted. */
  function Buried(names: Names, room: RoomId): Names {
    map n | n in names :: if names[n].room == room then names[n].(deleted := true) else names[n]
  }

  function Delete(s: Registry, room: RoomId, key: Key): (Registry, Answer) {
    var held := NamesOf(s.names, room);
    if exists n :: n in held && s.names[n].key != key then (s, Forbidden)
    else if held == {} && room in s.deleted then (s, Ok)
    else if held == {} && |s.deleted| >= MAX_DELETED then (s, Full)
    else (s.(names := Buried(s.names, room), deleted := s.deleted + {room}), Ok)
  }

  // ---------------------------------------------------------------- handles

  ghost function HandleOf(h: Handles, key: Key): Option<Handle> {
    if exists u :: u in h.holders && h.holders[u] == key then
      var u :| u in h.holders && h.holders[u] == key;
      Some(u)
    else None
  }

  ghost function ClaimHandle(s: Registry, key: Key, handle: Handle, now: int): (Registry, Answer) {
    var h := s.handles;
    var h1 := if handle in h.holders && IsIdle(h, h.holders[handle], now) then WithoutHandles(h, {handle}) else h;
    if handle in h1.holders then
      if h1.holders[handle] == key then (s.(handles := h1.(activity := h1.activity[key := now])), Ok)
      else (s.(handles := h1), Taken)
    else
      var held := HandleOf(h1, key);
      var h2 := if held.Some? then h1.(holders := h1.holders - {held.value}) else h1;
      var s2 := s.(handles := h2);
      var s3 := if |h2.holders| >= MAX_USERNAMES then ReapedStale(s2, now) else s2;
      if |s3.handles.holders| >= MAX_USERNAMES then (s3, Full)
      else (s3.(handles := Handles(s3.handles.holders[handle := key], s3.handles.activity[key := now])), Ok)
  }

  // ---------------------------------------------------------------- runs

  /** A name or handle is None when it does not normalise or an id with it is malformed. */
  datatype Op =
    | ClaimName(room: RoomId, key: Key, name: Option<Name>, display: Display, private: bool, now: int)
    | RenameName(room: RoomId, key: Key, name: Option<Name>, display: Display, private: bool, now: int)
    | SetNominee(room: RoomId, key: Key, nominee: Option<Key>, days: nat, valid: bool)
    | HandOver(from: RoomId, to: RoomId, key: Key, signer: Key, valid: bool, now: int)
    | DeleteRoom(room: RoomId, key: Key)
    | Reap(now: int)
    | TakeHandle(key: Key, handle: Option<Handle>, now: int)
    | Close

  ghost function Step(env: Env, s: Registry, op: Op): (Registry, Answer) {
    if op.Close? then (s.(open := false), Ok)
    else if !s.open then (s, ReadOnly)
    else
      match op
      case ClaimName(room, key, name, display, private, now) =>
        if name.None? then (s, InvalidName) else Claim(env, s, Ask(room, key, name.value, display, private, now))
      case RenameName(room, key, name, display, private, now) =>
        if name.None? then (s, InvalidName) else Rename(env, s, Ask(room, key, name.value, display, private, now))
      case SetNominee(room, key, nominee, days, valid) => Nominate(s, room, key, nominee, days, valid)
      case HandOver(from, to, key, signer, valid, now) =>
        if !valid then (s, InvalidName) else Handover(env, s, from, to, key, signer, now)
      case DeleteRoom(room, key) => Delete(s, room, key)
      case Reap(now) => (ReapedStale(s, now), Ok)
      case TakeHandle(key, handle, now) =>
        if handle.None? then (s, InvalidName) else ClaimHandle(s, key, handle.value, now)
  }

  ghost function After(env: Env, ops: seq<Op>): Registry {
    if ops == [] then EMPTY else Step(env, After(env, ops[..|ops| - 1]), ops[|ops| - 1]).0
  }

  predicate Timed(op: Op) { op.ClaimName? || op.RenameName? || op.HandOver? || op.Reap? || op.TakeHandle? }
}
